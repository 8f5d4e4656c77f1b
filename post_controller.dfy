/** `src/controllers/postController.ts`: the state-changing feed handlers. Each is
    a method that edits the loaded post step by step and saves it, proved equal to
    a function of the collection before the request; what the handler promises is
    stated on that function. `caller` is the user `protect` attached. A handler
    that loads no post, or whose input check fails, writes nothing. */
module PostController {
  import opened Js
  import opened Http
  import opened UserModel
  import opened PostModel

  const PostNotFound := Response(404, "Post not found")
  const CommentNotFound := Response(404, "Comment not found")
  /** A document the schema refuses: the catch blocks of these handlers answer 400. */
  const PostInvalid := Response(400, "Post validation failed")

  /** `createPost`. Empty content is refused first; a post without an attached
      author or without an author name fails the schema; a new post is appended
      with no upvotes and no comments. */
  function CreatePostOutcome(posts: seq<Post>, caller: Option<User>, content: string, authorName: string, newId: string): (o: PostOutcome)
    ensures content == "" ==> o == PostOutcome(Response(400, "Content is required"), posts)
    ensures o.response.status == 201 <==>
      content != "" && caller.Some? && authorName != "" && FindPost(posts, newId).None?
    ensures o.response.status == 201 ==>
      o.posts == posts + [Post(newId, caller.value.id, authorName, content, [], [])]
    ensures o.response.status != 201 ==> o.posts == posts && o.response.status == 400
    ensures PostsValid(posts) ==> PostsValid(o.posts)
  {
    if content == "" then
      PostOutcome(Response(400, "Content is required"), posts)
    else if caller.None? || authorName == "" then
      PostOutcome(PostInvalid, posts)
    else if FindPost(posts, newId).Some? then
      PostOutcome(Response(400, "E11000 duplicate key error"), posts)
    else
      PostOutcome(Response(201, ""), posts + [Post(newId, caller.value.id, authorName, content, [], [])])
  }

  method CreatePost(store: PostStore, caller: Option<User>, content: string, authorName: string, newId: string)
    returns (res: Response)
    requires store.Valid()
    modifies store
    ensures store.Valid()
    ensures PostOutcome(res, store.posts) == CreatePostOutcome(old(store.posts), caller, content, authorName, newId)
  {
    if content == "" {
      return Response(400, "Content is required");
    }
    if caller.None? || authorName == "" {
      return PostInvalid;
    }
    if FindPost(store.posts, newId).Some? {
      return Response(400, "E11000 duplicate key error");
    }
    var post := Post(newId, caller.value.id, authorName, content, [], []);
    store.posts := store.posts + [post];
    res := Response(201, "");
  }

  /** `upvotePost`: the caller's vote on the post is toggled; nothing else in the
      post or the collection changes. */
  function UpvotePostOutcome(posts: seq<Post>, postId: string, userId: string): (o: PostOutcome)
    ensures o.response.status == 404 <==> FindPost(posts, postId).None?
    ensures FindPost(posts, postId).None? ==> o == PostOutcome(PostNotFound, posts)
    ensures FindPost(posts, postId).Some? ==>
      var i := FindPost(posts, postId).value;
      o.response.status == 200
      && o.posts == posts[i := posts[i].(upvotes := Toggle(posts[i].upvotes, userId))]
    ensures PostsValid(posts) && FindPost(posts, postId).Some? ==>
      var i := FindPost(posts, postId).value;
      (userId in o.posts[i].upvotes <==> userId !in posts[i].upvotes)
    ensures PostsValid(posts) ==> PostsValid(o.posts)
  {
    match FindPost(posts, postId)
    case None => PostOutcome(PostNotFound, posts)
    case Some(i) =>
      var post := posts[i].(upvotes := Toggle(posts[i].upvotes, userId));
      assert PostsValid(posts) ==> PostsValid(posts[i := post]) by {
        if PostsValid(posts) {
          ToggleFlips(posts[i].upvotes, userId);
          ReplacePostKeepsValid(posts, i, post);
        }
      }
      assert PostsValid(posts) ==> (userId in post.upvotes <==> userId !in posts[i].upvotes) by {
        if PostsValid(posts) { ToggleFlips(posts[i].upvotes, userId); }
      }
      PostOutcome(Response(200, ""), posts[i := post])
  }

  /** Two upvotes by the same user on a post that user had not upvoted leave the
      collection exactly as it was. */
  lemma UpvotePostTwiceRestores(posts: seq<Post>, postId: string, userId: string)
    requires FindPost(posts, postId).Some?
    requires userId !in posts[FindPost(posts, postId).value].upvotes
    ensures UpvotePostOutcome(UpvotePostOutcome(posts, postId, userId).posts, postId, userId).posts == posts
  {
    var i := FindPost(posts, postId).value;
    var once := UpvotePostOutcome(posts, postId, userId).posts;
    FindPostSameIds(posts, once, postId);
    ToggleTwiceRestores(posts[i].upvotes, userId);
    assert once[i].upvotes == posts[i].upvotes + [userId];
  }

  lemma {:induction false} FindPostSameIds(a: seq<Post>, b: seq<Post>, id: string)
    requires |a| == |b| && forall k :: 0 <= k < |a| ==> a[k].id == b[k].id
    ensures FindPost(a, id) == FindPost(b, id)
  {
    if a != [] && a[0].id != id {
      assert forall k :: 0 <= k < |a| - 1 ==> a[1..][k].id == b[1..][k].id;
      FindPostSameIds(a[1..], b[1..], id);
    }
  }

  method UpvotePost(store: PostStore, postId: string, userId: string) returns (res: Response)
    requires store.Valid()
    modifies store
    ensures store.Valid()
    ensures PostOutcome(res, store.posts) == UpvotePostOutcome(old(store.posts), postId, userId)
  {
    var found := FindPost(store.posts, postId);
    if found.None? {
      return PostNotFound;
    }
    var i := found.value;
    var post := store.posts[i];
    var upvotes := post.upvotes;
    var index := IndexOf(upvotes, userId);
    if index == -1 {
      upvotes := upvotes + [userId];
    } else {
      upvotes := upvotes[..index] + upvotes[index + 1..];
    }
    post := post.(upvotes := upvotes);
    ToggleFlips(store.posts[i].upvotes, userId);
    ReplacePostKeepsValid(store.posts, i, post);
    store.posts := store.posts[i := post];
    res := Response(200, "");
  }

  /** `addComment`. Empty text is refused before the lookup; a comment without an
      attached user or a user name fails the schema. Otherwise the post's comment
      list grows by exactly one entry at the end, carrying the caller, the name and
      the text, with no upvotes and no replies; everything else is unchanged. */
  function AddCommentOutcome(posts: seq<Post>, postId: string, caller: Option<User>, text: string, userName: string, newCommentId: string): (o: PostOutcome)
    ensures text == "" ==> o == PostOutcome(Response(400, "Comment text is required"), posts)
    ensures text != "" && FindPost(posts, postId).None? ==> o == PostOutcome(PostNotFound, posts)
    ensures o.response.status == 201 <==>
      text != "" && FindPost(posts, postId).Some? && caller.Some? && userName != ""
    ensures o.response.status != 201 ==> o.posts == posts
    ensures o.response.status == 201 ==>
      var i := FindPost(posts, postId).value;
      o.posts == posts[i := posts[i].(comments := posts[i].comments + [Comment(newCommentId, caller.value.id, userName, text, [], [])])]
    ensures PostsValid(posts) ==> PostsValid(o.posts)
  {
    if text == "" then
      PostOutcome(Response(400, "Comment text is required"), posts)
    else
      match FindPost(posts, postId)
      case None => PostOutcome(PostNotFound, posts)
      case Some(i) =>
        if caller.None? || userName == "" then
          PostOutcome(PostInvalid, posts)
        else
          var comments := posts[i].comments + [Comment(newCommentId, caller.value.id, userName, text, [], [])];
          var post := posts[i].(comments := comments);
          assert PostsValid(posts) ==> PostsValid(posts[i := post]) by {
            if PostsValid(posts) { ReplacePostKeepsValid(posts, i, post); }
          }
          PostOutcome(Response(201, ""), posts[i := post])
  }

  method AddComment(store: PostStore, postId: string, caller: Option<User>, text: string, userName: string, newCommentId: string)
    returns (res: Response)
    requires store.Valid()
    modifies store
    ensures store.Valid()
    ensures PostOutcome(res, store.posts) == AddCommentOutcome(old(store.posts), postId, caller, text, userName, newCommentId)
  {
    if text == "" {
      return Response(400, "Comment text is required");
    }
    var found := FindPost(store.posts, postId);
    if found.None? {
      return PostNotFound;
    }
    var i := found.value;
    var post := store.posts[i];
    if caller.None? || userName == "" {
      return PostInvalid;
    }
    var comment := Comment(newCommentId, caller.value.id, userName, text, [], []);
    post := post.(comments := post.comments + [comment]);
    ReplacePostKeepsValid(store.posts, i, post);
    store.posts := store.posts[i := post];
    res := Response(201, "");
  }

  /** `deletePost`: a post that exists is removed exactly when the caller is its
      author or an Admin; otherwise 401 and nothing is removed. */
  function DeletePostOutcome(posts: seq<Post>, postId: string, caller: Option<User>): (o: PostOutcome)
    ensures FindPost(posts, postId).None? ==> o == PostOutcome(PostNotFound, posts)
    ensures o.response.status == 200 <==>
      FindPost(posts, postId).Some? && CanDelete(posts[FindPost(posts, postId).value].author, caller)
    ensures FindPost(posts, postId).Some? && o.response.status != 200 ==>
      o == PostOutcome(Response(401, "Not authorized to delete this post"), posts)
    ensures o.response.status == 200 ==>
      var i := FindPost(posts, postId).value;
      o == PostOutcome(Response(200, "Post removed"), posts[..i] + posts[i + 1..])
    ensures PostsValid(posts) ==> PostsValid(o.posts)
    ensures PostsValid(posts) && o.response.status == 200 ==> FindPost(o.posts, postId).None?
  {
    match FindPost(posts, postId)
    case None => PostOutcome(PostNotFound, posts)
    case Some(i) =>
      if !CanDelete(posts[i].author, caller) then
        PostOutcome(Response(401, "Not authorized to delete this post"), posts)
      else
        assert PostsValid(posts) ==> PostsValid(posts[..i] + posts[i + 1..]) && FindPost(posts[..i] + posts[i + 1..], postId).None? by {
          if PostsValid(posts) { RemovePostKeepsValid(posts, i); }
        }
        PostOutcome(Response(200, "Post removed"), posts[..i] + posts[i + 1..])
  }

  method DeletePost(store: PostStore, postId: string, caller: Option<User>) returns (res: Response)
    requires store.Valid()
    modifies store
    ensures store.Valid()
    ensures PostOutcome(res, store.posts) == DeletePostOutcome(old(store.posts), postId, caller)
  {
    var found := FindPost(store.posts, postId);
    if found.None? {
      return PostNotFound;
    }
    var i := found.value;
    var isAdmin := caller.Some? && caller.value.role.Admin?;
    if (caller.None? || store.posts[i].author != caller.value.id) && !isAdmin {
      return Response(401, "Not authorized to delete this post");
    }
    RemovePostKeepsValid(store.posts, i);
    store.posts := store.posts[..i] + store.posts[i + 1..];
    res := Response(200, "Post removed");
  }

  /** `upvoteComment`: the caller's vote on the first comment with that id is
      toggled; every other comment and the post itself are unchanged. */
  function UpvoteCommentOutcome(posts: seq<Post>, postId: string, commentId: string, userId: string): (o: PostOutcome)
    ensures FindPost(posts, postId).None? ==> o == PostOutcome(PostNotFound, posts)
    ensures FindPost(posts, postId).Some? && FindComment(posts[FindPost(posts, postId).value].comments, commentId).None? ==>
      o == PostOutcome(CommentNotFound, posts)
    ensures o.response.status == 200 <==>
      FindPost(posts, postId).Some? && FindComment(posts[FindPost(posts, postId).value].comments, commentId).Some?
    ensures o.response.status != 200 ==> o.posts == posts
    ensures o.response.status == 200 ==>
      var i := FindPost(posts, postId).value;
      var cs := posts[i].comments;
      var j := FindComment(cs, commentId).value;
      o.posts == posts[i := posts[i].(comments := cs[j := cs[j].(upvotes := Toggle(cs[j].upvotes, userId))])]
    ensures PostsValid(posts) ==> PostsValid(o.posts)
  {
    match FindPost(posts, postId)
    case None => PostOutcome(PostNotFound, posts)
    case Some(i) =>
      var cs := posts[i].comments;
      match FindComment(cs, commentId)
      case None => PostOutcome(CommentNotFound, posts)
      case Some(j) =>
        var comment := cs[j].(upvotes := Toggle(cs[j].upvotes, userId));
        var post := posts[i].(comments := cs[j := comment]);
        assert PostsValid(posts) ==> PostsValid(posts[i := post]) by {
          if PostsValid(posts) {
            ToggleFlips(cs[j].upvotes, userId);
            ReplaceCommentKeepsValid(cs, j, comment);
            ReplacePostKeepsValid(posts, i, post);
          }
        }
        PostOutcome(Response(200, ""), posts[i := post])
  }

  method UpvoteComment(store: PostStore, postId: string, commentId: string, userId: string) returns (res: Response)
    requires store.Valid()
    modifies store
    ensures store.Valid()
    ensures PostOutcome(res, store.posts) == UpvoteCommentOutcome(old(store.posts), postId, commentId, userId)
  {
    var found := FindPost(store.posts, postId);
    if found.None? {
      return PostNotFound;
    }
    var i := found.value;
    var post := store.posts[i];
    var j := FindComment(post.comments, commentId);
    if j.None? {
      return CommentNotFound;
    }
    var comment := post.comments[j.value];
    var upvotes := comment.upvotes;
    var index := IndexOf(upvotes, userId);
    if index == -1 {
      upvotes := upvotes + [userId];
    } else {
      upvotes := upvotes[..index] + upvotes[index + 1..];
    }
    comment := comment.(upvotes := upvotes);
    ToggleFlips(post.comments[j.value].upvotes, userId);
    ReplaceCommentKeepsValid(post.comments, j.value, comment);
    post := post.(comments := post.comments[j.value := comment]);
    ReplacePostKeepsValid(store.posts, i, post);
    store.posts := store.posts[i := post];
    res := Response(200, "");
  }

  /** `deleteComment`: when the caller wrote the first comment with that id, or is
      an Admin, the post keeps, in order, exactly its comments with a different
      id; otherwise 401 and nothing is removed. */
  function DeleteCommentOutcome(posts: seq<Post>, postId: string, commentId: string, caller: Option<User>): (o: PostOutcome)
    ensures FindPost(posts, postId).None? ==> o == PostOutcome(PostNotFound, posts)
    ensures FindPost(posts, postId).Some? && FindComment(posts[FindPost(posts, postId).value].comments, commentId).None? ==>
      o == PostOutcome(CommentNotFound, posts)
    ensures o.response.status == 200 <==>
      FindPost(posts, postId).Some? &&
      var cs := posts[FindPost(posts, postId).value].comments;
      FindComment(cs, commentId).Some? && CanDelete(cs[FindComment(cs, commentId).value].user, caller)
    ensures o.response.status != 200 ==> o.posts == posts
    ensures o.response.status == 401 ==> o.response == Response(401, "Not authorized to delete this comment")
    ensures o.response.status == 200 ==>
      var i := FindPost(posts, postId).value;
      o.posts == posts[i := posts[i].(comments := WithoutComment(posts[i].comments, commentId))]
      && forall c :: c in o.posts[i].comments <==> c in posts[i].comments && c.id != commentId
    ensures PostsValid(posts) ==> PostsValid(o.posts)
  {
    match FindPost(posts, postId)
    case None => PostOutcome(PostNotFound, posts)
    case Some(i) =>
      var cs := posts[i].comments;
      match FindComment(cs, commentId)
      case None => PostOutcome(CommentNotFound, posts)
      case Some(j) =>
        if !CanDelete(cs[j].user, caller) then
          PostOutcome(Response(401, "Not authorized to delete this comment"), posts)
        else
          var kept := WithoutComment(cs, commentId);
          var post := posts[i].(comments := kept);
          assert PostsValid(posts) ==> PostsValid(posts[i := post]) by {
            if PostsValid(posts) {
              forall k | 0 <= k < |kept| ensures CommentValid(kept[k]) {
                assert kept[k] in cs;
              }
              ReplacePostKeepsValid(posts, i, post);
            }
          }
          PostOutcome(Response(200, ""), posts[i := post])
  }

  method DeleteComment(store: PostStore, postId: string, commentId: string, caller: Option<User>) returns (res: Response)
    requires store.Valid()
    modifies store
    ensures store.Valid()
    ensures PostOutcome(res, store.posts) == DeleteCommentOutcome(old(store.posts), postId, commentId, caller)
  {
    var found := FindPost(store.posts, postId);
    if found.None? {
      return PostNotFound;
    }
    var i := found.value;
    var post := store.posts[i];
    var j := FindComment(post.comments, commentId);
    if j.None? {
      return CommentNotFound;
    }
    var comment := post.comments[j.value];
    var isAdmin := caller.Some? && caller.value.role.Admin?;
    if (caller.None? || comment.user != caller.value.id) && !isAdmin {
      return Response(401, "Not authorized to delete this comment");
    }
    ghost var o := DeleteCommentOutcome(store.posts, postId, commentId, caller);
    post := post.(comments := WithoutComment(post.comments, commentId));
    store.posts := store.posts[i := post];
    res := Response(200, "");
  }

  /** `addReply`: one reply, carrying the caller, the name and the text, is added
      at the end of the first comment with that id; the other comments, the post's
      upvotes and every other post are unchanged. */
  function AddReplyOutcome(posts: seq<Post>, postId: string, commentId: string, caller: Option<User>, text: string, userName: string): (o: PostOutcome)
    ensures text == "" ==> o == PostOutcome(Response(400, "Reply text is required"), posts)
    ensures text != "" && FindPost(posts, postId).None? ==> o == PostOutcome(PostNotFound, posts)
    ensures (text != "" && FindPost(posts, postId).Some?
      && FindComment(posts[FindPost(posts, postId).value].comments, commentId).None?) ==>
      o == PostOutcome(CommentNotFound, posts)
    ensures o.response.status == 201 <==>
      text != "" && FindPost(posts, postId).Some?
      && FindComment(posts[FindPost(posts, postId).value].comments, commentId).Some?
      && caller.Some? && userName != ""
    ensures o.response.status != 201 ==> o.posts == posts
    ensures o.response.status == 201 ==>
      var i := FindPost(posts, postId).value;
      var cs := posts[i].comments;
      var j := FindComment(cs, commentId).value;
      |o.posts| == |posts| && |o.posts[i].comments| == |cs|
      && o.posts[i].comments[j].replies == cs[j].replies + [Reply(caller.value.id, userName, text)]
      && o.posts[i].comments[j] == cs[j].(replies := o.posts[i].comments[j].replies)
      && (forall k :: 0 <= k < |cs| && k != j ==> o.posts[i].comments[k] == cs[k])
      && o.posts[i] == posts[i].(comments := o.posts[i].comments)
      && (forall k :: 0 <= k < |posts| && k != i ==> o.posts[k] == posts[k])
    ensures PostsValid(posts) ==> PostsValid(o.posts)
  {
    if text == "" then
      PostOutcome(Response(400, "Reply text is required"), posts)
    else
      match FindPost(posts, postId)
      case None => PostOutcome(PostNotFound, posts)
      case Some(i) =>
        var cs := posts[i].comments;
        match FindComment(cs, commentId)
        case None => PostOutcome(CommentNotFound, posts)
        case Some(j) =>
          if caller.None? || userName == "" then
            PostOutcome(PostInvalid, posts)
          else
            var comment := cs[j].(replies := cs[j].replies + [Reply(caller.value.id, userName, text)]);
            var post := posts[i].(comments := cs[j := comment]);
            assert PostsValid(posts) ==> PostsValid(posts[i := post]) by {
              if PostsValid(posts) {
                ReplaceCommentKeepsValid(cs, j, comment);
                ReplacePostKeepsValid(posts, i, post);
              }
            }
            PostOutcome(Response(201, ""), posts[i := post])
  }

  method AddReply(store: PostStore, postId: string, commentId: string, caller: Option<User>, text: string, userName: string)
    returns (res: Response)
    requires store.Valid()
    modifies store
    ensures store.Valid()
    ensures PostOutcome(res, store.posts) == AddReplyOutcome(old(store.posts), postId, commentId, caller, text, userName)
  {
    if text == "" {
      return Response(400, "Reply text is required");
    }
    var found := FindPost(store.posts, postId);
    if found.None? {
      return PostNotFound;
    }
    var i := found.value;
    var post := store.posts[i];
    var j := FindComment(post.comments, commentId);
    if j.None? {
      return CommentNotFound;
    }
    if caller.None? || userName == "" {
      return PostInvalid;
    }
    var comment := post.comments[j.value];
    comment := comment.(replies := comment.replies + [Reply(caller.value.id, userName, text)]);
    ReplaceCommentKeepsValid(post.comments, j.value, comment);
    post := post.(comments := post.comments[j.value := comment]);
    ReplacePostKeepsValid(store.posts, i, post);
    store.posts := store.posts[i := post];
    res := Response(201, "");
  }
}
