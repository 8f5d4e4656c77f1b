/** The community feed's records, from `src/models/Post.ts`: a post carries its
    upvotes and its comments, and each comment its own upvotes and its replies.
    Also the list operations the feed handlers perform on them. */
module PostModel {
  import opened Js
  import opened Http
  import opened UserModel

  datatype Reply = Reply(user: string, userName: string, text: string)

  datatype Comment = Comment(
    id: string, user: string, userName: string, text: string,
    upvotes: seq<string>, replies: seq<Reply>)

  datatype Post = Post(
    id: string, author: string, authorName: string, content: string,
    upvotes: seq<string>, comments: seq<Comment>)

  /** No user id occurs twice. */
  predicate NoDup(s: seq<string>) {
    forall i, j :: 0 <= i < j < |s| ==> s[i] != s[j]
  }

  /** The schema's `required` validators (an empty string fails them), and the
      invariant the upvote toggle keeps: a user upvotes a post or comment at most
      once. */
  predicate ReplyValid(r: Reply) {
    r.userName != "" && r.text != ""
  }

  predicate CommentValid(c: Comment) {
    c.userName != "" && c.text != "" && NoDup(c.upvotes)
    && forall k :: 0 <= k < |c.replies| ==> ReplyValid(c.replies[k])
  }

  predicate CommentsValid(cs: seq<Comment>) {
    forall k :: 0 <= k < |cs| ==> CommentValid(cs[k])
  }

  predicate PostValid(p: Post) {
    p.authorName != "" && p.content != "" && NoDup(p.upvotes) && CommentsValid(p.comments)
  }

  /** Every saved post is valid, and `_id` identifies one post. */
  predicate PostsValid(posts: seq<Post>) {
    (forall i :: 0 <= i < |posts| ==> PostValid(posts[i]))
    && (forall i, j :: 0 <= i < |posts| && 0 <= j < |posts| && i != j ==> posts[i].id != posts[j].id)
  }

  /** `Post.findById(id)`. */
  function FindPost(posts: seq<Post>, id: string): (r: Option<nat>)
    ensures r.Some? ==> r.value < |posts| && posts[r.value].id == id
    ensures r.None? <==> forall k :: 0 <= k < |posts| ==> posts[k].id != id
  {
    if posts == [] then None
    else if posts[0].id == id then Some(0)
    else
      var k := FindPost(posts[1..], id);
      assert forall j :: 1 <= j < |posts| ==> posts[j] == posts[1..][j - 1];
      if k.Some? then Some(k.value + 1) else None
  }

  /** `post.comments.find(c => c._id?.toString() === commentId)`: the first match. */
  function FindComment(comments: seq<Comment>, id: string): (r: Option<nat>)
    ensures r.Some? ==> r.value < |comments| && comments[r.value].id == id
    ensures r.Some? ==> forall k :: 0 <= k < r.value ==> comments[k].id != id
    ensures r.None? <==> forall k :: 0 <= k < |comments| ==> comments[k].id != id
  {
    if comments == [] then None
    else if comments[0].id == id then Some(0)
    else
      var k := FindComment(comments[1..], id);
      assert forall j :: 1 <= j < |comments| ==> comments[j] == comments[1..][j - 1];
      if k.Some? then Some(k.value + 1) else None
  }

  /** The upvote toggle: `indexOf`, then `push` when absent or `splice(index, 1)`
      when present. An absent user is appended at the end; otherwise the first
      occurrence, and only it, is removed. No other user's vote changes. */
  function Toggle(upvotes: seq<string>, userId: string): (r: seq<string>)
    ensures userId !in upvotes ==> r == upvotes + [userId]
    ensures userId in upvotes ==>
      exists i :: 0 <= i < |upvotes| && upvotes[i] == userId && userId !in upvotes[..i]
        && r == upvotes[..i] + upvotes[i + 1..]
    ensures userId in upvotes ==> multiset(r) == multiset(upvotes) - multiset{userId}
    ensures userId !in upvotes ==> multiset(r) == multiset(upvotes) + multiset{userId}
  {
    var index := IndexOf(upvotes, userId);
    if index == -1 then
      upvotes + [userId]
    else
      assert upvotes == upvotes[..index] + [upvotes[index]] + upvotes[index + 1..];
      upvotes[..index] + upvotes[index + 1..]
  }

  /** Toggling twice from a state without the user's vote restores the list
      exactly. */
  lemma ToggleTwiceRestores(upvotes: seq<string>, userId: string)
    requires userId !in upvotes
    ensures Toggle(Toggle(upvotes, userId), userId) == upvotes
  {
    var once := upvotes + [userId];
    assert once[..|upvotes|] == upvotes;
    IndexOfFirst(once, userId, |upvotes|);
    assert once[|upvotes| + 1..] == [];
  }

  /** Each toggle flips whether the user has voted and keeps every user at most
      once in the list. */
  lemma ToggleFlips(upvotes: seq<string>, userId: string)
    requires NoDup(upvotes)
    ensures userId in Toggle(upvotes, userId) <==> userId !in upvotes
    ensures NoDup(Toggle(upvotes, userId))
    ensures |Toggle(upvotes, userId)| == if userId in upvotes then |upvotes| - 1 else |upvotes| + 1
  {
    if userId in upvotes {
      RemoveFirstKeepsNoDup(upvotes, IndexOf(upvotes, userId));
    }
  }

  lemma RemoveFirstKeepsNoDup(upvotes: seq<string>, i: nat)
    requires NoDup(upvotes) && i < |upvotes|
    ensures var r := upvotes[..i] + upvotes[i + 1..];
      NoDup(r) && upvotes[i] !in r && |r| == |upvotes| - 1
  {
    var r := upvotes[..i] + upvotes[i + 1..];
    assert forall a :: 0 <= a < |r| ==> r[a] == upvotes[if a < i then a else a + 1];
    forall a, b | 0 <= a < b < |r| ensures r[a] != r[b] {
      assert r[a] == upvotes[if a < i then a else a + 1];
    }
    forall a | 0 <= a < |r| ensures r[a] != upvotes[i] {
      assert r[a] == upvotes[if a < i then a else a + 1];
    }
  }

  /** `post.comments.filter(c => c._id?.toString() !== commentId)`. */
  function WithoutComment(comments: seq<Comment>, id: string): (r: seq<Comment>)
    ensures forall c :: c in r <==> c in comments && c.id != id
    ensures |r| <= |comments|
    ensures (forall k :: 0 <= k < |comments| ==> comments[k].id != id) ==> r == comments
  {
    if comments == [] then []
    else
      var rest := WithoutComment(comments[1..], id);
      assert forall c :: c in comments <==> c == comments[0] || c in comments[1..];
      if comments[0].id == id then rest else [comments[0]] + rest
  }

  /** The filter works element by element, so it keeps the surviving comments in
      their original order. */
  lemma {:induction false} WithoutCommentAppend(a: seq<Comment>, b: seq<Comment>, id: string)
    ensures WithoutComment(a + b, id) == WithoutComment(a, id) + WithoutComment(b, id)
  {
    if a == [] {
      assert a + b == b;
    } else {
      assert (a + b)[0] == a[0];
      assert (a + b)[1..] == a[1..] + b;
      WithoutCommentAppend(a[1..], b, id);
    }
  }

  /** The author-or-admin rule of the two delete handlers: `owner` is the id of the
      post's author or of the comment's writer; without an attached user the ids
      never compare equal. */
  predicate CanDelete(owner: string, caller: Option<User>) {
    caller.Some? && (caller.value.id == owner || caller.value.role.Admin?)
  }

  /** What a feed handler leaves behind: its response and the collection afterwards. */
  datatype PostOutcome = PostOutcome(response: Response, posts: seq<Post>)

  /** Replacing a post by a valid post with the same `_id` keeps the collection
      valid. */
  lemma ReplacePostKeepsValid(posts: seq<Post>, i: nat, p: Post)
    requires PostsValid(posts) && i < |posts| && PostValid(p) && p.id == posts[i].id
    ensures PostsValid(posts[i := p])
  {
  }

  /** Removing the post at `i` keeps the collection valid, and no post with its id
      remains. */
  lemma RemovePostKeepsValid(posts: seq<Post>, i: nat)
    requires PostsValid(posts) && i < |posts|
    ensures PostsValid(posts[..i] + posts[i + 1..])
    ensures FindPost(posts[..i] + posts[i + 1..], posts[i].id).None?
  {
    var rest := posts[..i] + posts[i + 1..];
    assert forall k :: 0 <= k < |rest| ==> rest[k] == posts[if k < i then k else k + 1];
  }

  /** Replacing a comment by a valid one keeps the comment list valid. */
  lemma ReplaceCommentKeepsValid(cs: seq<Comment>, j: nat, c: Comment)
    requires CommentsValid(cs) && j < |cs| && CommentValid(c)
    ensures CommentsValid(cs[j := c])
  {
  }

  /** The `posts` collection. */
  class PostStore {
    var posts: seq<Post>

    ghost predicate Valid()
      reads this
    {
      PostsValid(posts)
    }

    constructor ()
      ensures Valid() && posts == []
    {
      posts := [];
    }
  }
}
