/** The comment views (comments/views.py): adding and replying, the author
    checks of edit and delete, the like toggle, and the nested tree the
    comment list returns. */
module CommentViews {
  import opened Common
  import opened Users
  import opened TaskModels
  import opened CommentModels

  // ----- Likes -----

  /** The like table after a toggle by `u` on comment `c`: the pair is
      removed when present and added when absent; no other like changes. */
  function ToggledLikes(likes: set<CommentLike>, c: nat, u: UserId): (r: set<CommentLike>)
    ensures CommentLike(c, u) in r <==> CommentLike(c, u) !in likes
    ensures forall l :: l in likes && l != CommentLike(c, u) ==> l in r
    ensures forall l :: l in r && l != CommentLike(c, u) ==> l in likes
  {
    if CommentLike(c, u) in likes then likes - {CommentLike(c, u)} else likes + {CommentLike(c, u)}
  }

  /** Toggling twice restores the like table. */
  lemma ToggleTwiceRestores(likes: set<CommentLike>, c: nat, u: UserId)
    ensures ToggledLikes(ToggledLikes(likes, c, u), c, u) == likes
  {
  }

  /** A toggle moves the comment's count by exactly one, up when it likes and
      down when it unlikes, and leaves every other comment's count alone. */
  lemma ToggleMovesCountByOne(likes: set<CommentLike>, c: nat, u: UserId, other: nat)
    requires other != c
    ensures CommentLike(c, u) !in likes ==> LikeCount(ToggledLikes(likes, c, u), c) == LikeCount(likes, c) + 1
    ensures CommentLike(c, u) in likes ==> LikeCount(ToggledLikes(likes, c, u), c) + 1 == LikeCount(likes, c)
    ensures LikeCount(ToggledLikes(likes, c, u), other) == LikeCount(likes, other)
  {
    if CommentLike(c, u) in likes {
      LikeCountAfterRemove(likes, c, u);
      LikeCountOtherComment(likes, other, CommentLike(c, u));
    } else {
      LikeCountAfterAdd(likes, c, u);
      LikeCountOtherComment(likes, other, CommentLike(c, u));
    }
  }

  datatype LikeOutcome = LikeNotAllowed | LikeNotFound | Toggled(liked: bool, likeCount: nat)

  /** `like_comment` (POST only): the toggle on an existing comment, reporting
      whether the user now likes it and the comment's new like count. */
  method LikeComment(cs: CommentStore, u: UserId, cid: nat, isPost: bool) returns (outcome: LikeOutcome)
    requires cs.Valid()
    modifies cs
    ensures cs.Valid() && cs.comments == old(cs.comments) && cs.nextId == old(cs.nextId)
    ensures !isPost ==> outcome == LikeNotAllowed && cs.likes == old(cs.likes)
    ensures isPost && CommentIndex(cs.comments, cid).None? ==> outcome == LikeNotFound && cs.likes == old(cs.likes)
    ensures isPost && CommentIndex(cs.comments, cid).Some? ==>
      cs.likes == ToggledLikes(old(cs.likes), cid, u) &&
      outcome == Toggled(CommentLike(cid, u) !in old(cs.likes), LikeCount(cs.likes, cid))
  {
    if !isPost {
      return LikeNotAllowed;
    }
    if CommentIndex(cs.comments, cid).None? {
      return LikeNotFound;
    }
    var liked := false;
    if CommentLike(cid, u) in cs.likes {
      cs.likes := cs.likes - {CommentLike(cid, u)};
    } else {
      cs.likes := cs.likes + {CommentLike(cid, u)};
      liked := true;
    }
    outcome := Toggled(liked, LikeCount(cs.likes, cid));
  }

  // ----- Adding, replying, editing -----

  /** The comment form's cleaned content, or `None` when the form is invalid. */
  type CommentForm = Option<string>

  datatype WriteOutcome = TaskNotFound | ParentNotFound | CommentNotFound | NotAuthor | NotAllowed | FormShown | Written(id: nat)

  /** `add_comment`: on a valid POST for an existing task, a new top-level
      comment by the requester is stored; a GET or an invalid form only shows
      the form. */
  method AddComment(cs: CommentStore, tasks: seq<Task>, u: UserId, taskId: nat, isPost: bool, form: CommentForm, now: Time)
    returns (outcome: WriteOutcome)
    requires cs.Valid()
    modifies cs
    ensures cs.Valid() && cs.likes == old(cs.likes)
    ensures TaskIndex(tasks, taskId).None? ==> outcome == TaskNotFound && cs.comments == old(cs.comments)
    ensures TaskIndex(tasks, taskId).Some? && (!isPost || form.None?) ==>
      outcome == FormShown && cs.comments == old(cs.comments)
    ensures TaskIndex(tasks, taskId).Some? && isPost && form.Some? ==>
      outcome == Written(old(cs.nextId)) && cs.nextId == old(cs.nextId) + 1 &&
      cs.comments == old(cs.comments) + [Comment(old(cs.nextId), taskId, u, form.value, None, now)]
  {
    if TaskIndex(tasks, taskId).None? {
      return TaskNotFound;
    }
    if !isPost || form.None? {
      return FormShown;
    }
    var id := cs.nextId;
    cs.comments := cs.comments + [Comment(id, taskId, u, form.value, None, now)];
    cs.nextId := id + 1;
    outcome := Written(id);
  }

  /** `reply_comment`: like adding, with the parent comment looked up first.
      The parent is not required to belong to the same task. */
  method ReplyComment(cs: CommentStore, tasks: seq<Task>, u: UserId, taskId: nat, parentId: nat, isPost: bool, form: CommentForm, now: Time)
    returns (outcome: WriteOutcome)
    requires cs.Valid()
    modifies cs
    ensures cs.Valid() && cs.likes == old(cs.likes)
    ensures TaskIndex(tasks, taskId).None? ==> outcome == TaskNotFound && cs.comments == old(cs.comments)
    ensures TaskIndex(tasks, taskId).Some? && CommentIndex(old(cs.comments), parentId).None? ==>
      outcome == ParentNotFound && cs.comments == old(cs.comments)
    ensures TaskIndex(tasks, taskId).Some? && CommentIndex(old(cs.comments), parentId).Some? && (!isPost || form.None?) ==>
      outcome == FormShown && cs.comments == old(cs.comments)
    ensures TaskIndex(tasks, taskId).Some? && CommentIndex(old(cs.comments), parentId).Some? && isPost && form.Some? ==>
      outcome == Written(old(cs.nextId)) && cs.nextId == old(cs.nextId) + 1 &&
      cs.comments == old(cs.comments) + [Comment(old(cs.nextId), taskId, u, form.value, Some(parentId), now)]
  {
    if TaskIndex(tasks, taskId).None? {
      return TaskNotFound;
    }
    var p := CommentIndex(cs.comments, parentId);
    if p.None? {
      return ParentNotFound;
    }
    if !isPost || form.None? {
      return FormShown;
    }
    var id := cs.nextId;
    assert cs.comments[p.value].id == parentId;
    cs.comments := cs.comments + [Comment(id, taskId, u, form.value, Some(parentId), now)];
    cs.nextId := id + 1;
    outcome := Written(id);
  }

  /** `edit_comment`: only the author may edit; a valid POST replaces the
      content and nothing else. */
  method EditComment(cs: CommentStore, u: UserId, cid: nat, isPost: bool, form: CommentForm) returns (outcome: WriteOutcome)
    requires cs.Valid()
    modifies cs
    ensures cs.Valid() && cs.likes == old(cs.likes) && cs.nextId == old(cs.nextId)
    ensures var k := CommentIndex(old(cs.comments), cid);
      if k.None? then
        outcome == CommentNotFound && cs.comments == old(cs.comments)
      else if old(cs.comments)[k.value].author != u then
        outcome == NotAuthor && cs.comments == old(cs.comments)
      else if !isPost || form.None? then
        outcome == FormShown && cs.comments == old(cs.comments)
      else
        outcome == Written(cid) && cs.comments == old(cs.comments)[k.value := old(cs.comments)[k.value].(content := form.value)]
  {
    var k := CommentIndex(cs.comments, cid);
    if k.None? {
      return CommentNotFound;
    }
    var c := cs.comments[k.value];
    if c.author != u {
      return NotAuthor;
    }
    if !isPost || form.None? {
      return FormShown;
    }
    cs.comments := cs.comments[k.value := c.(content := form.value)];
    outcome := Written(cid);
  }

  // ----- Deleting -----

  /** Whether comment `id` is `root` or a reply, at any depth, under it. */
  predicate InSubtree(all: seq<Comment>, id: nat, root: nat)
    requires ParentBeforeChild(all)
    decreases id
  {
    if id == root then true
    else
      match CommentIndex(all, id)
      case None => false
      case Some(k) =>
        match all[k].parent
        case None => false
        case Some(p) => InSubtree(all, p, root)
  }

  /** `delete_comment` (POST only): only the author may delete. Deleting
      cascades to the replies at every depth and to the likes of every
      deleted comment. */
  method DeleteComment(cs: CommentStore, u: UserId, cid: nat, isPost: bool) returns (outcome: WriteOutcome)
    requires cs.Valid()
    modifies cs
    ensures cs.Valid() && cs.nextId == old(cs.nextId)
    ensures !isPost ==> outcome == NotAllowed && cs.comments == old(cs.comments) && cs.likes == old(cs.likes)
    ensures isPost && CommentIndex(old(cs.comments), cid).None? ==>
      outcome == CommentNotFound && cs.comments == old(cs.comments) && cs.likes == old(cs.likes)
    ensures (isPost && CommentIndex(old(cs.comments), cid).Some? &&
             old(cs.comments)[CommentIndex(old(cs.comments), cid).value].author != u) ==>
      outcome == NotAuthor && cs.comments == old(cs.comments) && cs.likes == old(cs.likes)
    ensures (isPost && CommentIndex(old(cs.comments), cid).Some? &&
             old(cs.comments)[CommentIndex(old(cs.comments), cid).value].author == u) ==>
      outcome == Written(cid) &&
      cs.comments == Filter(old(cs.comments), Survives(old(cs.comments), cid)) &&
      cs.likes == LikesSurviving(old(cs.likes), old(cs.comments), cid)
  {
    if !isPost {
      return NotAllowed;
    }
    var k := CommentIndex(cs.comments, cid);
    if k.None? {
      return CommentNotFound;
    }
    if cs.comments[k.value].author != u {
      return NotAuthor;
    }
    CascadeDelete(cs, cid);
    outcome := Written(cid);
  }

  /** The database's cascade: the comment, its replies at every depth, and
      their likes are removed together. */
  method CascadeDelete(cs: CommentStore, root: nat)
    requires cs.Valid()
    modifies cs
    ensures cs.Valid() && cs.nextId == old(cs.nextId)
    ensures cs.comments == Filter(old(cs.comments), Survives(old(cs.comments), root))
    ensures cs.likes == LikesSurviving(old(cs.likes), old(cs.comments), root)
  {
    var all := cs.comments;
    FilterKeepsStoreInvariant(all, Survives(all, root), cs.nextId);
    cs.likes := LikesSurviving(cs.likes, all, root);
    cs.comments := Filter(all, Survives(all, root));
  }

  function CommentKey(c: Comment): nat
  {
    c.id
  }

  /** Removing rows keeps ids distinct and below the next id, and parents
      before their replies. */
  lemma FilterKeepsStoreInvariant(all: seq<Comment>, p: Comment -> bool, nextId: nat)
    requires WellFormed(all, nextId)
    ensures WellFormed(Filter(all, p), nextId)
  {
    assert UniqueBy(all, CommentKey);
    FilterKeepsUnique(all, p, CommentKey);
    var kept := Filter(all, p);
    forall i | 0 <= i < |kept|
      ensures kept[i].id < nextId
      ensures kept[i].parent.Some? ==> kept[i].parent.value < kept[i].id
    {
      var j :| 0 <= j < |all| && all[j] == kept[i];
    }
  }

  /** The rows a cascading delete of `root` keeps. */
  function Survives(all: seq<Comment>, root: nat): Comment -> bool
    requires ParentBeforeChild(all)
  {
    (c: Comment) => !InSubtree(all, c.id, root)
  }

  /** The likes a cascading delete of `root` keeps. */
  function LikesSurviving(likes: set<CommentLike>, all: seq<Comment>, root: nat): (r: set<CommentLike>)
    requires ParentBeforeChild(all)
    ensures r <= likes
    ensures forall l :: l in likes ==> (l in r <==> !InSubtree(all, l.comment, root))
  {
    set l | l in likes && !InSubtree(all, l.comment, root)
  }

  /** After a delete the comment itself is gone, and no remaining comment is
      a reply to a deleted one. */
  lemma DeleteLeavesNoOrphans(all: seq<Comment>, root: nat)
    requires ParentBeforeChild(all)
    requires forall i, j :: 0 <= i < j < |all| ==> all[i].id != all[j].id
    ensures forall k :: 0 <= k < |Filter(all, Survives(all, root))| ==> Filter(all, Survives(all, root))[k].id != root
    ensures forall k :: 0 <= k < |Filter(all, Survives(all, root))| && Filter(all, Survives(all, root))[k].parent.Some? ==>
      !InSubtree(all, Filter(all, Survives(all, root))[k].parent.value, root)
  {
    var kept := Filter(all, Survives(all, root));
    forall k | 0 <= k < |kept| && kept[k].parent.Some?
      ensures !InSubtree(all, kept[k].parent.value, root)
    {
      var j :| 0 <= j < |all| && all[j] == kept[k];
      SubtreeStep(all, j, root);
    }
  }

  /** A comment lies under `root` when it is `root` or its parent lies under
      `root`. */
  lemma SubtreeStep(all: seq<Comment>, j: nat, root: nat)
    requires ParentBeforeChild(all)
    requires forall a, b :: 0 <= a < b < |all| ==> all[a].id != all[b].id
    requires j < |all| && all[j].parent.Some?
    ensures InSubtree(all, all[j].id, root) == (all[j].id == root || InSubtree(all, all[j].parent.value, root))
  {
    var ci := CommentIndex(all, all[j].id);
    assert ci.Some?;
    assert ci.value == j;
  }

  // ----- The comment tree -----

  /** One node of the nested list `comment_list` returns. */
  datatype CommentItem = CommentItem(
    id: nat,
    author: UserId,
    content: string,
    likeCount: nat,
    liked: bool,
    canEdit: bool,
    canDelete: bool,
    replies: seq<CommentItem>)

  /** A bound above every comment id. */
  function IdBound(all: seq<Comment>): (b: nat)
    ensures forall j :: 0 <= j < |all| ==> all[j].id < b
  {
    if |all| == 0 then 0
    else
      var rest := IdBound(all[1..]);
      assert forall j :: 1 <= j < |all| ==> all[j] == all[1..][j - 1];
      if all[0].id + 1 > rest then all[0].id + 1 else rest
  }

  /** The item `build_comment_tree` makes for one comment: its fields, its
      like count, whether `u` likes it, the author-only edit and delete
      flags, and the tree of its replies (in table order, which is creation
      order). A reply's id exceeds its parent's, which bounds the recursion. */
  function ItemOf(all: seq<Comment>, likes: set<CommentLike>, c: Comment, u: UserId, bound: nat): (item: CommentItem)
    requires ParentBeforeChild(all)
    requires forall j :: 0 <= j < |all| ==> all[j].id < bound
    requires c.id < bound
    ensures item.id == c.id && item.author == c.author && item.content == c.content
    ensures item.likeCount == LikeCount(likes, c.id) && item.liked == (CommentLike(c.id, u) in likes)
    ensures item.canEdit == item.canDelete == (c.author == u)
    ensures |item.replies| == CountWhere(all, RepliesTo(c.id))
    ensures forall k :: 0 <= k < |item.replies| ==> item.replies[k].id == Filter(all, RepliesTo(c.id))[k].id
    decreases bound - c.id, 0
  {
    var replies := Filter(all, RepliesTo(c.id));
    assert forall k :: 0 <= k < |replies| ==> c.id + 1 <= replies[k].id < bound;
    CommentItem(c.id, c.author, c.content, LikeCount(likes, c.id), CommentLike(c.id, u) in likes,
                c.author == u, c.author == u,
                BuildTree(all, likes, replies, u, bound, c.id + 1))
  }

  /** `build_comment_tree`: one item per comment of `level`, in order. Every
      comment of a nested level has an id of at least `lo`. */
  function BuildTree(all: seq<Comment>, likes: set<CommentLike>, level: seq<Comment>, u: UserId, bound: nat, lo: nat)
    : (tree: seq<CommentItem>)
    requires ParentBeforeChild(all)
    requires forall j :: 0 <= j < |all| ==> all[j].id < bound
    requires forall k :: 0 <= k < |level| ==> lo <= level[k].id < bound
    ensures |tree| == |level|
    ensures forall k :: 0 <= k < |tree| ==> tree[k].id == level[k].id
    decreases bound - lo, 1
  {
    seq(|level|, k requires 0 <= k < |level| => ItemOf(all, likes, level[k], u, bound))
  }

  /** Every item at every depth grants edit and delete together, exactly to
      the comment's author. */
  predicate PermissionsConsistent(tree: seq<CommentItem>, u: UserId)
    decreases tree
  {
    forall k :: 0 <= k < |tree| ==>
      tree[k].canEdit == tree[k].canDelete &&
      (tree[k].canEdit <==> tree[k].author == u) &&
      PermissionsConsistent(tree[k].replies, u)
  }

  lemma {:induction false} TreePermissionsConsistent(all: seq<Comment>, likes: set<CommentLike>, level: seq<Comment>, u: UserId, bound: nat, lo: nat)
    requires ParentBeforeChild(all)
    requires forall j :: 0 <= j < |all| ==> all[j].id < bound
    requires forall k :: 0 <= k < |level| ==> lo <= level[k].id < bound
    ensures PermissionsConsistent(BuildTree(all, likes, level, u, bound, lo), u)
    decreases bound - lo
  {
    var tree := BuildTree(all, likes, level, u, bound, lo);
    forall k | 0 <= k < |tree|
      ensures PermissionsConsistent(tree[k].replies, u)
    {
      var c := level[k];
      var replies := Filter(all, RepliesTo(c.id));
      assert forall j :: 0 <= j < |replies| ==> c.id + 1 <= replies[j].id < bound;
      TreePermissionsConsistent(all, likes, replies, u, bound, c.id + 1);
      assert tree[k] == ItemOf(all, likes, c, u, bound);
    }
  }

  /** The top-level comments of a task: exactly its comments without a
      parent, in creation order. */
  function RootComments(all: seq<Comment>, taskId: nat): (roots: seq<Comment>)
    ensures forall k :: 0 <= k < |roots| ==> roots[k] in all && roots[k].task == taskId && roots[k].parent.None?
    ensures forall j :: 0 <= j < |all| && all[j].task == taskId && all[j].parent.None? ==> all[j] in roots
  {
    Filter(all, (c: Comment) => c.task == taskId && c.parent.None?)
  }

  /** `comment_list`: not found for an unknown task, otherwise the tree of
      the task's top-level comments. */
  function CommentList(all: seq<Comment>, likes: set<CommentLike>, tasks: seq<Task>, taskId: nat, u: UserId)
    : (r: Option<seq<CommentItem>>)
    requires ParentBeforeChild(all)
    ensures r.None? <==> TaskIndex(tasks, taskId).None?
    ensures r.Some? ==> |r.value| == |RootComments(all, taskId)|
    ensures r.Some? ==> forall k :: 0 <= k < |r.value| ==> r.value[k].id == RootComments(all, taskId)[k].id
  {
    if TaskIndex(tasks, taskId).None? then None
    else
      var roots := RootComments(all, taskId);
      var bound := IdBound(all);
      assert forall k :: 0 <= k < |roots| ==> roots[k].id < bound;
      Some(BuildTree(all, likes, roots, u, bound, 0))
  }
}
