/** The request handlers that change a post's counters: publishing, adding
    and deleting comments, deleting posts, reporting, following a post
    ("attention") and up/down reactions. Each handler is a function from the
    forum's state to the state afterwards and the reply. A handler that fails
    halfway keeps the writes it made before the failure, as the source does
    (it has no transactions). */
module Handlers {
  import opened Wrappers
  import opened Decimal
  import opened Entities
  import opened Stores
  import opened Permission

  /** The users who reacted up and down to one post, by name hash. */
  datatype Reactions = Reactions(up: set<string>, down: set<string>)

  /** The state the handlers read and write: the database tables and the
      Redis keys they touch. */
  datatype Forum = Forum(
    posts: map<int, Post>,
    comments: map<int, Comment>,
    attention: AttentionStore,
    reactions: map<int, Reactions>,
    pollOptions: map<int, seq<string>>,
    titles: TitleStore,
    log: seq<LogEntry>,
    banned: set<string>)

  /** The state after a handler, and its reply. */
  datatype Step<R> = Step(forum: Forum, reply: Result<R, ApiError>)

  predicate StartsWith(s: string, prefix: string) {
    |prefix| <= |s| && s[..|prefix|] == prefix
  }

  // ------------------------------------------------------------ counters

  /** The users attending a post. */
  function Attendees(att: AttentionStore, pid: int): set<string> {
    set h | h in att && pid in AttentionOf(att, h)
  }

  /** The comments of a post that are not deleted. */
  function LiveComments(cs: map<int, Comment>, pid: int): set<int> {
    set cid | cid in cs && cs[cid].post_id == pid && !cs[cid].is_deleted
  }

  function ReactionsOf(f: Forum, pid: int): Reactions {
    if pid in f.reactions then f.reactions[pid] else Reactions({}, {})
  }

  /** A post's stored counters agree with the records they count: attention
      with the attending users, comments with the comments not deleted,
      votes with the reaction sets. */
  predicate CountersMatch(f: Forum, pid: int) {
    pid in f.posts ==>
      var p := f.posts[pid];
      && p.n_attentions == |Attendees(f.attention, pid)|
      && p.n_comments == |LiveComments(f.comments, pid)|
      && p.up_votes == |ReactionsOf(f, pid).up|
      && p.down_votes == |ReactionsOf(f, pid).down|
  }

  predicate AllCountersMatch(f: Forum) {
    forall pid | pid in f.posts :: CountersMatch(f, pid)
  }

  predicate SameCounters(p: Post, p0: Post) {
    p.n_attentions == p0.n_attentions && p.n_comments == p0.n_comments
    && p.up_votes == p0.up_votes && p.down_votes == p0.down_votes
  }

  /** A post's counters still match when neither the post nor anything it
      counts has changed. */
  lemma CountersFrame(f: Forum, f': Forum, q: int)
    requires CountersMatch(f, q)
    requires q in f'.posts ==> q in f.posts && SameCounters(f'.posts[q], f.posts[q])
    requires Attendees(f'.attention, q) == Attendees(f.attention, q)
    requires LiveComments(f'.comments, q) == LiveComments(f.comments, q)
    requires ReactionsOf(f', q) == ReactionsOf(f, q)
    ensures CountersMatch(f', q)
  {
  }

  lemma LiveCommentsAdd(cs: map<int, Comment>, c: Comment, q: int)
    requires c.id !in cs && !c.is_deleted
    ensures LiveComments(cs[c.id := c], q)
      == if q == c.post_id then LiveComments(cs, q) + {c.id} else LiveComments(cs, q)
  {
  }

  lemma AttendeesAdd(att: AttentionStore, h: string, pid: int, q: int)
    ensures Attendees(AttentionAdd(att, h, pid).0, q)
      == if q == pid then Attendees(att, q) + {h} else Attendees(att, q)
  {
    var att' := AttentionAdd(att, h, pid).0;
    assert forall x :: x in Attendees(att', q) <==> x in (if q == pid then Attendees(att, q) + {h} else Attendees(att, q));
  }

  lemma AttendeesRemove(att: AttentionStore, h: string, pid: int, q: int)
    ensures Attendees(AttentionRemove(att, h, pid), q)
      == if q == pid then Attendees(att, q) - {h} else Attendees(att, q)
  {
    var att' := AttentionRemove(att, h, pid);
    assert forall x :: x in Attendees(att', q) <==> x in (if q == pid then Attendees(att, q) - {h} else Attendees(att, q));
  }

  // ------------------------------------------------------------ publish

  /** The fields of a new post the insert sets; the rest take their column
      defaults (no comments, no votes, score 0, neither deleted nor
      reported, last comment time = creation time). */
  function NewPost(pid: int, user: CurrentUser, text: string, cw: string, allow_search: bool,
                   use_title: bool, room_id: Option<int>, now: int): (p: Post)
    ensures p.id == pid && p.author_hash == user.namehash
    ensures p.n_attentions == 1 && p.n_comments == 0
    ensures p.is_tmp <==> user.id.None?
    ensures p.room_id == room_id.GetOr(0)
    ensures p.author_title == (if use_title || user.is_admin || user.is_candidate then user.custom_title else "")
  {
    Post(pid, user.namehash, text, cw,
      if use_title || user.is_admin || user.is_candidate then user.custom_title else "",
      user.id.None?, 1, 0, now, now, false, false, 0, allow_search, room_id.GetOr(0), 0, 0)
  }

  /** `publish_post`: insert the post (the database picks the fresh id
      `pid`), make the author attend it, and store its poll options when
      there are any. */
  function PublishPost(f: Forum, user: CurrentUser, pid: int, text: string, cw: string, allow_search: bool,
                       use_title: bool, poll_options: seq<string>, room_id: Option<int>, now: int): (r: Step<()>)
    requires pid !in f.posts
    ensures r.reply.Ok?
    ensures r.forum.posts == f.posts[pid := NewPost(pid, user, text, cw, allow_search, use_title, room_id, now)]
    ensures AttentionHas(r.forum.attention, user.namehash, pid)
    ensures |poll_options| > 0 ==> pid in r.forum.pollOptions && r.forum.pollOptions[pid] == poll_options
    ensures |poll_options| == 0 ==> r.forum.pollOptions == f.pollOptions
    ensures AttentionOf(r.forum.attention, user.namehash) == AttentionOf(f.attention, user.namehash) + {pid}
    ensures forall h :: h != user.namehash ==> AttentionOf(r.forum.attention, h) == AttentionOf(f.attention, h)
    ensures r.forum == f.(posts := r.forum.posts, attention := r.forum.attention, pollOptions := r.forum.pollOptions)
  {
    var p := NewPost(pid, user, text, cw, allow_search, use_title, room_id, now);
    var f1 := f.(posts := f.posts[pid := p], attention := AttentionAdd(f.attention, user.namehash, pid).0);
    var f2 := if |poll_options| > 0 then f1.(pollOptions := f1.pollOptions[pid := poll_options]) else f1;
    Step(f2, Ok(()))
  }

  /** A fresh post starts with its counters right: the author is its one
      attendant, and it has no comments and no votes yet. */
  lemma PublishCountersMatch(f: Forum, user: CurrentUser, pid: int, text: string, cw: string, allow_search: bool,
                             use_title: bool, poll_options: seq<string>, room_id: Option<int>, now: int)
    requires pid !in f.posts && AllCountersMatch(f)
    requires Attendees(f.attention, pid) == {} && LiveComments(f.comments, pid) == {} && pid !in f.reactions
    ensures AllCountersMatch(PublishPost(f, user, pid, text, cw, allow_search, use_title, poll_options, room_id, now).forum)
  {
    var f' := PublishPost(f, user, pid, text, cw, allow_search, use_title, poll_options, room_id, now).forum;
    var p := NewPost(pid, user, text, cw, allow_search, use_title, room_id, now);
    forall q | q in f'.posts
      ensures CountersMatch(f', q)
    {
      assert q != pid ==> CountersMatch(f, q);
      PublishAt(f, f', p, user.namehash, q);
    }
  }

  /** One post's counters after publishing `p`: the new post counts its
      author as its one attendant, every other post is untouched. */
  lemma PublishAt(f: Forum, f': Forum, p: Post, h: string, q: int)
    requires p.id !in f.posts && p.id !in f.reactions
    requires Attendees(f.attention, p.id) == {} && LiveComments(f.comments, p.id) == {}
    requires p.n_attentions == 1 && p.n_comments == 0 && p.up_votes == 0 && p.down_votes == 0
    requires q != p.id ==> CountersMatch(f, q)
    requires f'.posts == f.posts[p.id := p] && f'.attention == AttentionAdd(f.attention, h, p.id).0
    requires f'.comments == f.comments && f'.reactions == f.reactions
    ensures CountersMatch(f', q)
  {
    AttendeesAdd(f.attention, h, p.id, q);
    if q != p.id {
      CountersFrame(f, f', q);
    } else {
      assert Attendees(f'.attention, q) == {h};
    }
  }

  // ------------------------------------------------------------ comments

  /** The hot-score and attention increments a new comment brings: a new
      participant adds 3 and joins the post's attendants; a returning one
      adds 1 while the thread has fewer than three comments per attendant. */
  function CommentDeltas(p: Post, attending: bool): (d: (int, int))
    ensures !attending ==> d == (3, 1)
    ensures attending ==> d.1 == 0 && (d.0 == 1 <==> p.n_comments < 3 * p.n_attentions) && (d.0 == 0 || d.0 == 1)
  {
    if !attending then (3, 1)
    else (if p.n_comments < 3 * p.n_attentions then 1 else 0, 0)
  }

  /** `add_comment`: store the comment (the database picks the fresh id
      `cid`), make the commenter attend the post, and update the post's
      counters. No permission is checked: a comment on a deleted or
      reported post is accepted. */
  function AddComment(f: Forum, user: CurrentUser, pid: int, text: string, use_title: bool, cid: int, now: int)
    : (r: Step<()>)
    requires cid !in f.comments
    ensures pid !in f.posts ==> r == Step(f, Err(Db))
    ensures pid in f.posts ==> r.reply.Ok? && pid in r.forum.posts && cid in r.forum.comments
    ensures pid in f.posts ==>
      var p := f.posts[pid];
      var p' := r.forum.posts[pid];
      var attending := AttentionHas(f.attention, user.namehash, pid);
      && p' == p.(n_comments := p.n_comments + 1,
                  last_comment_time := now,
                  n_attentions := p.n_attentions + (if attending then 0 else 1),
                  hot_score := p.hot_score + CommentDeltas(p, attending).0)
      && r.forum == WithComment(f, pid, p', r.forum.comments[cid], user.namehash)
      && r.forum.comments[cid].id == cid
      && AttentionHas(r.forum.attention, user.namehash, pid)
      && r.forum.comments[cid].post_id == pid && !r.forum.comments[cid].is_deleted
      && r.forum.comments[cid].author_hash == user.namehash
      && (r.forum.comments[cid].is_tmp <==> user.id.None?)
      && r.forum.comments[cid].content == text
      && r.forum.comments[cid].author_title == (if use_title then GetTitle(f.titles, user.namehash).GetOr("") else "")
      && r.forum.comments[cid].create_time == now
      && !r.forum.comments[cid].allow_search
  {
    if pid !in f.posts then Step(f, Err(Db))
    else
      var p := f.posts[pid];
      var title := if use_title then GetTitle(f.titles, user.namehash).GetOr("") else "";
      var c := Comment(cid, user.namehash, title, user.id.None?, text, now, false, false, pid);
      var (hs, at) := CommentDeltas(p, AttentionHas(f.attention, user.namehash, pid));
      var p' := p.(n_comments := p.n_comments + 1, last_comment_time := now,
                   n_attentions := p.n_attentions + at, hot_score := p.hot_score + hs);
      Step(WithComment(f, pid, p', c, user.namehash), Ok(()))
  }

  /** Adding a comment keeps every post's counters in step with what they
      count. */
  lemma AddCommentCountersMatch(f: Forum, user: CurrentUser, pid: int, text: string, use_title: bool, cid: int, now: int)
    requires cid !in f.comments && AllCountersMatch(f)
    ensures AllCountersMatch(AddComment(f, user, pid, text, use_title, cid, now).forum)
  {
    if pid in f.posts {
      var f' := AddComment(f, user, pid, text, use_title, cid, now).forum;
      CommentAddedCounters(f, pid, f'.posts[pid], f'.comments[cid], user.namehash);
    }
  }

  /** The state after a comment `c` on post `pid`, whose record becomes
      `p'`, by the user `h`. */
  function WithComment(f: Forum, pid: int, p': Post, c: Comment, h: string): (r: Forum)
    ensures r.posts == f.posts[pid := p'] && r.comments == f.comments[c.id := c]
    ensures r.attention == Attend(f.attention, h, pid)
    ensures r.reactions == f.reactions
  {
    f.(posts := f.posts[pid := p'], comments := f.comments[c.id := c], attention := Attend(f.attention, h, pid))
  }

  /** The attention store after `h` comments on `pid`: `h` attends it, and
      is written only when it did not attend it yet. */
  function Attend(att: AttentionStore, h: string, pid: int): (r: AttentionStore)
    ensures AttentionHas(r, h, pid)
    ensures forall q :: Attendees(r, q) == if q == pid then Attendees(att, q) + {h} else Attendees(att, q)
  {
    AttendeesAddAll(att, h, pid);
    if AttentionHas(att, h, pid) then att else AttentionAdd(att, h, pid).0
  }

  lemma AttendeesAddAll(att: AttentionStore, h: string, pid: int)
    ensures AttentionHas(att, h, pid) ==> Attendees(att, pid) + {h} == Attendees(att, pid)
    ensures forall q :: (Attendees(AttentionAdd(att, h, pid).0, q)
      == if q == pid then Attendees(att, q) + {h} else Attendees(att, q))
  {
    forall q
      ensures Attendees(AttentionAdd(att, h, pid).0, q)
        == if q == pid then Attendees(att, q) + {h} else Attendees(att, q)
    {
      AttendeesAdd(att, h, pid, q);
    }
    if AttentionHas(att, h, pid) {
      assert h in Attendees(att, pid);
    }
  }

  /** The counting argument behind `AddCommentCountersMatch`, on the state
      alone: one live comment more, and one attendant more unless the
      commenter already attended. */
  lemma CommentAddedCounters(f: Forum, pid: int, p': Post, c: Comment, h: string)
    requires AllCountersMatch(f) && pid in f.posts && c.id !in f.comments
    requires c.post_id == pid && !c.is_deleted
    requires p'.n_comments == f.posts[pid].n_comments + 1
    requires p'.n_attentions == f.posts[pid].n_attentions + (if AttentionHas(f.attention, h, pid) then 0 else 1)
    requires p'.up_votes == f.posts[pid].up_votes && p'.down_votes == f.posts[pid].down_votes
    ensures AllCountersMatch(WithComment(f, pid, p', c, h))
  {
    var f' := WithComment(f, pid, p', c, h);
    forall q | q in f'.posts
      ensures CountersMatch(f', q)
    {
      assert CountersMatch(f, q);
      CommentAddedAt(f, pid, p', c, h, q);
    }
  }

  /** One post's counters after the comment: see `CommentAddedCounters`. */
  lemma CommentAddedAt(f: Forum, pid: int, p': Post, c: Comment, h: string, q: int)
    requires CountersMatch(f, q) && pid in f.posts && c.id !in f.comments
    requires c.post_id == pid && !c.is_deleted
    requires p'.n_comments == f.posts[pid].n_comments + 1
    requires p'.n_attentions == f.posts[pid].n_attentions + (if AttentionHas(f.attention, h, pid) then 0 else 1)
    requires p'.up_votes == f.posts[pid].up_votes && p'.down_votes == f.posts[pid].down_votes
    ensures CountersMatch(WithComment(f, pid, p', c, h), q)
  {
    var f' := WithComment(f, pid, p', c, h);
    assert ReactionsOf(f', q) == ReactionsOf(f, q);
    if q != pid {
      LiveCommentsAdd(f.comments, c, q);
      CountersFrame(f, f', q);
    } else {
      CommentedPostCounts(f.attention, f.comments, h, c);
    }
  }

  /** The commented post gains the comment among its live ones, and its
      commenter among its attendants unless already there. */
  lemma CommentedPostCounts(att: AttentionStore, cs: map<int, Comment>, h: string, c: Comment)
    requires c.id !in cs && !c.is_deleted
    ensures |Attendees(Attend(att, h, c.post_id), c.post_id)|
      == |Attendees(att, c.post_id)| + (if AttentionHas(att, h, c.post_id) then 0 else 1)
    ensures |LiveComments(cs[c.id := c], c.post_id)| == |LiveComments(cs, c.post_id)| + 1
  {
    assert h in Attendees(att, c.post_id) <==> AttentionHas(att, h, c.post_id);
    CardAddRemove(Attendees(att, c.post_id), h);
    LiveCommentsAdd(cs, c, c.post_id);
    CardAddRemove(LiveComments(cs, c.post_id), c.id);
  }

  // ------------------------------------------------------------ delete

  /** `look!`: the first two and last two characters of a name hash; a
      string slice out of range panics. */
  function Look(s: string): (r: Result<string, ApiError>)
    ensures r.Err? <==> |s| < 2
    ensures r.Ok? ==> |r.value| == 7 && r.value[2..5] == "..."
  {
    if |s| < 2 then Err(Panic) else Ok(s[..2] + "..." + s[|s| - 2..])
  }

  /** The moderation trail of a delete: when an admin removes someone
      else's content, log it; when the note starts with "!ban ", also log a
      ban and add the author to the banned users. */
  function AdminTrail(f: Forum, user: CurrentUser, pid: int, id_type: string, id: int, note: string,
                      author: string, now: int): (r: Step<()>)
    ensures !user.is_admin || user.namehash == author ==> r == Step(f, Ok(()))
    ensures user.is_admin && user.namehash != author && (!StartsWith(note, "!ban ") || |author| < 2) ==>
      |r.forum.log| >= 1 && r.forum.log[0].action_type == AdminDelete && r.forum.log[0].detail == note
      && r.forum.banned == f.banned
    ensures user.is_admin && user.namehash != author && StartsWith(note, "!ban ") && |author| >= 2 ==>
      r.reply.Ok? && author in r.forum.banned && |r.forum.log| >= 2
      && r.forum.log[0].action_type == Ban && r.forum.log[1].action_type == AdminDelete
    ensures r.reply.Err? <==>
      user.is_admin && user.namehash != author && StartsWith(note, "!ban ") && |author| < 2
    ensures r.reply.Err? ==> r.reply.error == Panic
    ensures r.forum == f.(log := r.forum.log, banned := r.forum.banned)
  {
    if user.is_admin && user.namehash != author then
      var target := "#" + IntToString(pid) + ", " + id_type + "=" + IntToString(id);
      var f1 := f.(log := CreateLog(f.log, LogEntry(user.namehash, AdminDelete, target, note, now)));
      if StartsWith(note, "!ban ") then
        match Look(author)
        case Err(e) => Step(f1, Err(e))
        case Ok(shown) =>
          CreateTwice(f.log, LogEntry(user.namehash, AdminDelete, target, note, now),
            LogEntry(user.namehash, Ban, shown, note, now));
          var f2 := f1.(log := CreateLog(f1.log, LogEntry(user.namehash, Ban, shown, note, now)));
          Step(f2.(banned := BanAdd(f2.banned, author)), Ok(()))
      else Step(f1, Ok(()))
    else Step(f, Ok(()))
  }

  /** The post record after one of its comments is deleted: one comment and
      one point of hot score less, unless the comment was already deleted
      and `recount_deleted` is false. */
  function Decremented(p: Post, c: Comment, recount_deleted: bool): (p': Post)
    ensures p'.n_comments == p.n_comments - (if recount_deleted || !c.is_deleted then 1 else 0)
    ensures p'.hot_score == p.hot_score - (if recount_deleted || !c.is_deleted then 1 else 0)
    ensures p' == p.(n_comments := p'.n_comments, hot_score := p'.hot_score)
  {
    if recount_deleted || !c.is_deleted then p.(n_comments := p.n_comments - 1, hot_score := p.hot_score - 1)
    else p
  }

  /** The "cid" branch of `delete`. The comment is marked deleted before its
      post is read, so a missing post leaves that write behind. */
  function DeleteComment(f: Forum, user: CurrentUser, id: int, note: string, now: int, recount_deleted: bool)
    : (r: Step<()>)
    ensures r.forum.comments.Keys == f.comments.Keys && r.forum.posts.Keys == f.posts.Keys
    ensures id !in f.comments ==> r == Step(f, Err(Db))
    ensures id in f.comments && CheckPermission(CommentUgc(f.comments[id]), user, "rwd").Err? ==>
      r == Step(f, Err(CheckPermission(CommentUgc(f.comments[id]), user, "rwd").error))
    ensures id in f.comments && CheckPermission(CommentUgc(f.comments[id]), user, "rwd").Ok? ==>
      var c := f.comments[id];
      var f1 := f.(comments := f.comments[id := c.(is_deleted := true)]);
      && (c.post_id !in f.posts ==> r == Step(f1, Err(Db)))
      && (c.post_id in f.posts ==>
            var f2 := f1.(posts := f.posts[c.post_id := Decremented(f.posts[c.post_id], c, recount_deleted)]);
            r == AdminTrail(f2, user, f.posts[c.post_id].id, "cid", id, note, c.author_hash, now))
  {
    if id !in f.comments then Step(f, Err(Db))
    else
      var c := f.comments[id];
      match SoftDelete(CommentUgc(c), user)
      case Err(e) => Step(f, Err(e))
      case Ok(_) =>
        var f1 := f.(comments := f.comments[id := c.(is_deleted := true)]);
        if c.post_id !in f.posts then Step(f1, Err(Db))
        else
          var p := f.posts[c.post_id];
          AdminTrail(f1.(posts := f1.posts[c.post_id := Decremented(p, c, recount_deleted)]),
                     user, p.id, "cid", id, note, c.author_hash, now)
  }

  /** The "pid" branch of `delete`. */
  function DeletePost(f: Forum, user: CurrentUser, id: int, note: string, now: int): (r: Step<()>)
    ensures r.forum.comments.Keys == f.comments.Keys && r.forum.posts.Keys == f.posts.Keys
    ensures id !in f.posts ==> r == Step(f, Err(Db))
    ensures id in f.posts && CheckPermission(PostUgc(f.posts[id]), user, "rwd").Err? ==>
      r == Step(f, Err(CheckPermission(PostUgc(f.posts[id]), user, "rwd").error))
    ensures id in f.posts && CheckPermission(PostUgc(f.posts[id]), user, "rwd").Ok? ==>
      var p := f.posts[id];
      r == AdminTrail(f.(posts := f.posts[id := p.(is_deleted := true)]), user, p.id, "pid", id, note, p.author_hash, now)
  {
    if id !in f.posts then Step(f, Err(Db))
    else
      var p := f.posts[id];
      match SoftDelete(PostUgc(p), user)
      case Err(e) => Step(f, Err(e))
      case Ok(_) =>
        AdminTrail(f.(posts := f.posts[id := p.(is_deleted := true)]), user, p.id, "pid", id, note, p.author_hash, now)
  }

  /** `delete`, parameterised by whether deleting a comment that is already
      deleted still decrements its post's counters (`recount_deleted`). */
  function DeleteWith(f: Forum, user: CurrentUser, id_type: string, id: int, note: string, now: int,
                      recount_deleted: bool): (r: Step<()>)
    ensures r.forum.comments.Keys == f.comments.Keys && r.forum.posts.Keys == f.posts.Keys
    ensures id_type == "cid" ==> r == DeleteComment(f, user, id, note, now, recount_deleted)
    ensures id_type == "pid" ==> r == DeletePost(f, user, id, note, now)
  {
    if id_type == "cid" then DeleteComment(f, user, id, note, now, recount_deleted)
    else if id_type == "pid" then DeletePost(f, user, id, note, now)
    else Step(f, Err(Pc(NotAllowed)))
  }

  /** `delete` as the source has it: an admin may delete a comment that is
      already deleted, and its post is decremented again. */
  function DeleteAsWritten(f: Forum, user: CurrentUser, id_type: string, id: int, note: string, now: int): (r: Step<()>)
    ensures r.forum.comments.Keys == f.comments.Keys && r.forum.posts.Keys == f.posts.Keys
    ensures id_type != "cid" && id_type != "pid" ==> r == Step(f, Err(Pc(NotAllowed)))
    ensures (id_type == "cid" && id in f.comments && f.comments[id].post_id in f.posts
      && CheckPermission(CommentUgc(f.comments[id]), user, "rwd").Ok?) ==>
        var c := f.comments[id];
        && r.forum.comments[id] == c.(is_deleted := true)
        && r.forum.posts[c.post_id] == f.posts[c.post_id].(n_comments := f.posts[c.post_id].n_comments - 1,
                                                           hot_score := f.posts[c.post_id].hot_score - 1)
  {
    DeleteWith(f, user, id_type, id, note, now, true)
  }

  /** An admin deleting a comment that is already deleted takes one more off
      its post's comment count and hot score, so the count no longer matches
      the comments that are left. */
  lemma AdminRedeleteMiscounts(f: Forum, admin: CurrentUser, cid: int, note: string, now: int)
    requires admin.is_admin
    requires cid in f.comments && f.comments[cid].is_deleted && f.comments[cid].post_id in f.posts
    requires CountersMatch(f, f.comments[cid].post_id)
    ensures var pid := f.comments[cid].post_id;
      var f' := DeleteAsWritten(f, admin, "cid", cid, note, now).forum;
      && f'.posts[pid].n_comments == f.posts[pid].n_comments - 1
      && !CountersMatch(f', pid)
  {
    var c := f.comments[cid];
    var pid := c.post_id;
    var f' := DeleteAsWritten(f, admin, "cid", cid, note, now).forum;
    LiveCommentsDelete(f.comments, cid, pid);
    assert LiveComments(f'.comments, pid) == LiveComments(f.comments, pid);
  }

  /** `delete` with the post's counters decremented only when the comment
      was live. */
  function Delete(f: Forum, user: CurrentUser, id_type: string, id: int, note: string, now: int): (r: Step<()>)
    ensures r.forum.comments.Keys == f.comments.Keys && r.forum.posts.Keys == f.posts.Keys
    ensures id_type != "cid" && id_type != "pid" ==> r == Step(f, Err(Pc(NotAllowed)))
    ensures (id_type == "cid" && id in f.comments && f.comments[id].post_id in f.posts
      && CheckPermission(CommentUgc(f.comments[id]), user, "rwd").Ok?) ==>
        var c := f.comments[id];
        && r.forum.comments[id] == c.(is_deleted := true)
        && var d := if c.is_deleted then 0 else 1;
           r.forum.posts[c.post_id] == f.posts[c.post_id].(n_comments := f.posts[c.post_id].n_comments - d,
                                                          hot_score := f.posts[c.post_id].hot_score - d)
    ensures (id_type == "pid" && id in f.posts && CheckPermission(PostUgc(f.posts[id]), user, "rwd").Ok?) ==>
      r.forum.posts[id] == f.posts[id].(is_deleted := true) && r.forum.comments == f.comments
  {
    DeleteWith(f, user, id_type, id, note, now, false)
  }

  lemma LiveCommentsDelete(cs: map<int, Comment>, id: int, q: int)
    requires id in cs
    ensures LiveComments(cs[id := cs[id].(is_deleted := true)], q)
      == if q == cs[id].post_id && !cs[id].is_deleted then LiveComments(cs, q) - {id} else LiveComments(cs, q)
  {
  }

  /** The counting argument for deleting a comment, on the state alone. */
  lemma CommentDeletedCounters(f: Forum, id: int, withPost: bool)
    requires AllCountersMatch(f) && id in f.comments
    requires withPost <==> f.comments[id].post_id in f.posts
    ensures var c := f.comments[id];
      var f1 := f.(comments := f.comments[id := c.(is_deleted := true)]);
      var f2 := if withPost then f1.(posts := f.posts[c.post_id := Decremented(f.posts[c.post_id], c, false)]) else f1;
      AllCountersMatch(f2)
  {
    var c := f.comments[id];
    var f1 := f.(comments := f.comments[id := c.(is_deleted := true)]);
    if withPost {
      var f2 := f1.(posts := f.posts[c.post_id := Decremented(f.posts[c.post_id], c, false)]);
      forall q | q in f2.posts
        ensures CountersMatch(f2, q)
      {
        assert CountersMatch(f, q);
        LiveCommentsDelete(f.comments, id, q);
        if q != c.post_id {
          CountersFrame(f, f2, q);
        }
      }
    } else {
      forall q | q in f1.posts
        ensures CountersMatch(f1, q)
      {
        assert CountersMatch(f, q);
        LiveCommentsDelete(f.comments, id, q);
        CountersFrame(f, f1, q);
      }
    }
  }

  /** Deleting keeps every post's counters in step with what they count. */
  lemma DeleteCountersMatch(f: Forum, user: CurrentUser, id_type: string, id: int, note: string, now: int)
    requires AllCountersMatch(f)
    ensures AllCountersMatch(Delete(f, user, id_type, id, note, now).forum)
  {
    var f' := Delete(f, user, id_type, id, note, now).forum;
    if id_type == "cid" && id in f.comments && CheckPermission(CommentUgc(f.comments[id]), user, "rwd").Ok? {
      var c := f.comments[id];
      CommentDeletedCounters(f, id, c.post_id in f.posts);
      if c.post_id in f.posts {
        var f1 := f.(comments := f.comments[id := c.(is_deleted := true)]);
        var f2 := f1.(posts := f.posts[c.post_id := Decremented(f.posts[c.post_id], c, false)]);
        TrailKeepsCounters(f2, f');
      }
    } else if id_type == "pid" && id in f.posts && CheckPermission(PostUgc(f.posts[id]), user, "rwd").Ok? {
      var f1 := f.(posts := f.posts[id := f.posts[id].(is_deleted := true)]);
      PostDeletedCounters(f, id);
      TrailKeepsCounters(f1, f');
    }
  }

  /** The log and the banned users count nothing. */
  lemma TrailKeepsCounters(f: Forum, f': Forum)
    requires AllCountersMatch(f)
    requires f' == f.(log := f'.log, banned := f'.banned)
    ensures AllCountersMatch(f')
  {
    forall q | q in f'.posts
      ensures CountersMatch(f', q)
    {
      assert CountersMatch(f, q);
    }
  }

  /** Marking a post deleted changes none of the counts. */
  lemma PostDeletedCounters(f: Forum, id: int)
    requires AllCountersMatch(f) && id in f.posts
    ensures AllCountersMatch(f.(posts := f.posts[id := f.posts[id].(is_deleted := true)]))
  {
    var f' := f.(posts := f.posts[id := f.posts[id].(is_deleted := true)]);
    forall q | q in f'.posts
      ensures CountersMatch(f', q)
    {
      assert CountersMatch(f, q);
      CountersFrame(f, f', q);
    }
  }

  /** Only an admin removing someone else's content leaves a trace in the
      log; with a "!ban " note the ban is logged last, so it sits above the
      deletion, and the author is banned. */
  lemma DeleteTrail(f: Forum, user: CurrentUser, id_type: string, id: int, note: string, now: int)
    requires id_type == "pid" && id in f.posts && CheckPermission(PostUgc(f.posts[id]), user, "rwd").Ok?
    ensures var r := Delete(f, user, id_type, id, note, now);
      && (!user.is_admin ==> r.forum.log == f.log && r.reply.Ok?)
      && (user.is_admin && user.namehash != f.posts[id].author_hash && StartsWith(note, "!ban ")
          && |f.posts[id].author_hash| >= 2 ==>
            r.reply.Ok? && f.posts[id].author_hash in r.forum.banned
            && r.forum.log[0].action_type == Ban && r.forum.log[1].action_type == AdminDelete)
  {
  }

  // ------------------------------------------------------------ report

  const COMMENT_AREA: string := "评论区"

  /** The log target of a report: the post, marked when the reason says the
      report is about the comment area. */
  function ReportTarget(pid: int, reason: string): (t: string)
    ensures StartsWith(t, "#" + IntToString(pid) + " ")
  {
    "#" + IntToString(pid) + " " + (if StartsWith(reason, COMMENT_AREA) then COMMENT_AREA else "")
  }

  /** The target names the comment area exactly when the reason starts with
      it. */
  lemma ReportTargetMarks(pid: int, reason: string)
    ensures COMMENT_AREA <= ReportTarget(pid, reason)[|IntToString(pid)| + 2..] <==> StartsWith(reason, COMMENT_AREA)
  {
    var t := ReportTarget(pid, reason);
    var head := "#" + IntToString(pid) + " ";
    assert t[..|head|] == head;
    assert t[|IntToString(pid)| + 2..] == if StartsWith(reason, COMMENT_AREA) then COMMENT_AREA else "";
  }

  /** `report`: temporary users may not report; otherwise mark the post
      reported and log the report. Any reason is accepted, the empty one
      included. */
  function ReportPost(f: Forum, user: CurrentUser, pid: int, reason: string, now: int): (r: Step<()>)
    ensures user.id.None? ==> r == Step(f, Err(Pc(NotAllowed)))
    ensures user.id.Some? && pid !in f.posts ==> r == Step(f, Err(Db))
    ensures user.id.Some? && pid in f.posts ==>
      && r.reply.Ok?
      && r.forum.posts == f.posts[pid := f.posts[pid].(is_reported := true)]
      && r.forum.log == CreateLog(f.log, LogEntry(user.namehash, Report, ReportTarget(pid, reason), reason, now))
      && r.forum == f.(posts := r.forum.posts, log := r.forum.log)
  {
    if user.id.None? then Step(f, Err(Pc(NotAllowed)))
    else if pid !in f.posts then Step(f, Err(Db))
    else
      var f1 := f.(posts := f.posts[pid := f.posts[pid].(is_reported := true)]);
      Step(f1.(log := CreateLog(f1.log, LogEntry(user.namehash, Report, ReportTarget(pid, reason), reason, now))), Ok(()))
  }

  /** Reporting keeps every post's counters in step with what they count. */
  lemma ReportCountersMatch(f: Forum, user: CurrentUser, pid: int, reason: string, now: int)
    requires AllCountersMatch(f)
    ensures AllCountersMatch(ReportPost(f, user, pid, reason, now).forum)
  {
    if user.id.Some? && pid in f.posts {
      var f1 := f.(posts := f.posts[pid := f.posts[pid].(is_reported := true)]);
      forall q | q in f1.posts
        ensures CountersMatch(f1, q)
      {
        assert CountersMatch(f, q);
        CountersFrame(f, f1, q);
      }
      TrailKeepsCounters(f1, ReportPost(f, user, pid, reason, now).forum);
    }
  }

  // ------------------------------------------------------------ attention

  datatype AttentionReply = AttentionReply(attention: bool, n_attentions: int, likenum: int)

  /** `attention_post`: follow (switch 1) or unfollow (switch 0) a post the
      user may read; the counter moves only when the membership changes. */
  function AttentionPost(f: Forum, user: CurrentUser, pid: int, switch: int): (r: Step<AttentionReply>)
    ensures switch != 0 && switch != 1 ==> r == Step(f, Err(Form))
    ensures (switch == 0 || switch == 1) && user.id.None? ==> r == Step(f, Err(Pc(NotAllowed)))
    ensures (switch == 0 || switch == 1) && user.id.Some? && pid !in f.posts ==> r == Step(f, Err(Db))
    ensures ((switch == 0 || switch == 1) && user.id.Some? && pid in f.posts
             && CheckPermission(PostUgc(f.posts[pid]), user, "r").Err?) ==>
      r == Step(f, Err(CheckPermission(PostUgc(f.posts[pid]), user, "r").error))
    ensures ((switch == 0 || switch == 1) && user.id.Some? && pid in f.posts
             && !user.is_admin && f.posts[pid].is_deleted) ==>
      r == Step(f, Err(Pc(PolicyError.IsDeleted)))
    ensures r.reply.Err? ==> r.forum == f
    ensures r.reply.Ok? ==> (pid in f.posts && pid in r.forum.posts && (user.is_admin || !f.posts[pid].is_deleted)
      && r.forum == f.(posts := f.posts[pid := f.posts[pid].(n_attentions := r.forum.posts[pid].n_attentions)],
                       attention := r.forum.attention)
      && AttentionOf(r.forum.attention, user.namehash)
         == (if switch == 1 then AttentionOf(f.attention, user.namehash) + {pid}
             else AttentionOf(f.attention, user.namehash) - {pid})
      && (forall h :: h != user.namehash ==> AttentionOf(r.forum.attention, h) == AttentionOf(f.attention, h)))
    ensures r.reply.Ok? ==> (pid in f.posts && pid in r.forum.posts
      && (AttentionHas(r.forum.attention, user.namehash, pid) <==> switch == 1)
      && r.reply.value.attention == (switch == 1)
      && r.reply.value.n_attentions == r.reply.value.likenum == r.forum.posts[pid].n_attentions
      && r.forum.posts[pid].n_attentions - f.posts[pid].n_attentions
         == (if AttentionHas(f.attention, user.namehash, pid) == (switch == 1) then 0
             else if switch == 1 then 1 else -1))
  {
    if switch != 0 && switch != 1 then Step(f, Err(Form))
    else if user.id.None? then Step(f, Err(Pc(NotAllowed)))
    else if pid !in f.posts then Step(f, Err(Db))
    else
      var p := f.posts[pid];
      match CheckPermission(PostUgc(p), user, "r")
      case Err(e) => Step(f, Err(e))
      case Ok(_) =>
        var switch_to := switch == 1;
        if AttentionHas(f.attention, user.namehash, pid) != switch_to then
          var delta := if switch_to then 1 else -1;
          var att' := if switch_to then AttentionAdd(f.attention, user.namehash, pid).0
                      else AttentionRemove(f.attention, user.namehash, pid);
          var p' := p.(n_attentions := p.n_attentions + delta);
          Step(f.(posts := f.posts[pid := p'], attention := att'),
               Ok(AttentionReply(switch_to, p.n_attentions + delta, p.n_attentions + delta)))
        else
          Step(f, Ok(AttentionReply(switch_to, p.n_attentions, p.n_attentions)))
  }

  /** Repeating a switch changes nothing the second time. */
  lemma AttentionIdempotent(f: Forum, user: CurrentUser, pid: int, switch: int)
    requires AttentionPost(f, user, pid, switch).reply.Ok?
    ensures var f1 := AttentionPost(f, user, pid, switch).forum;
      AttentionPost(f1, user, pid, switch).forum == f1
  {
    var f1 := AttentionPost(f, user, pid, switch).forum;
    assert f1.posts[pid].is_deleted == f.posts[pid].is_deleted;
  }

  /** Attention keeps every post's counters equal to what they count. */
  lemma AttentionCountersMatch(f: Forum, user: CurrentUser, pid: int, switch: int)
    requires AllCountersMatch(f)
    ensures AllCountersMatch(AttentionPost(f, user, pid, switch).forum)
  {
    var f' := AttentionPost(f, user, pid, switch).forum;
    var h := user.namehash;
    if f' != f {
      var on := switch == 1;
      var p := f.posts[pid];
      assert AttentionHas(f.attention, h, pid) != on;
      var att' := if on then AttentionAdd(f.attention, h, pid).0 else AttentionRemove(f.attention, h, pid);
      assert f' == f.(posts := f.posts[pid := p.(n_attentions := p.n_attentions + (if on then 1 else -1))],
                      attention := att');
      AttentionToggleCounters(f, pid, h, on);
    }
  }

  /** The counting argument behind `AttentionCountersMatch`, on the state
      alone: toggling one user's attention moves the counter by one. */
  lemma AttentionToggleCounters(f: Forum, pid: int, h: string, on: bool)
    requires AllCountersMatch(f) && pid in f.posts
    requires AttentionHas(f.attention, h, pid) != on
    ensures var p := f.posts[pid];
      var att' := if on then AttentionAdd(f.attention, h, pid).0 else AttentionRemove(f.attention, h, pid);
      AllCountersMatch(f.(posts := f.posts[pid := p.(n_attentions := p.n_attentions + (if on then 1 else -1))],
                          attention := att'))
  {
    var p := f.posts[pid];
    var att' := if on then AttentionAdd(f.attention, h, pid).0 else AttentionRemove(f.attention, h, pid);
    var f' := f.(posts := f.posts[pid := p.(n_attentions := p.n_attentions + (if on then 1 else -1))],
                 attention := att');
    forall q | q in f'.posts
      ensures CountersMatch(f', q)
    {
      assert CountersMatch(f, q);
      AttentionToggleAt(f, f', pid, h, on, q);
    }
  }

  /** One post's counters after a toggle: the toggled post's attention
      count moves with its attendants, every other post is untouched. */
  lemma AttentionToggleAt(f: Forum, f': Forum, pid: int, h: string, on: bool, q: int)
    requires CountersMatch(f, q) && pid in f.posts
    requires AttentionHas(f.attention, h, pid) != on
    requires f'.attention == if on then AttentionAdd(f.attention, h, pid).0 else AttentionRemove(f.attention, h, pid)
    requires f'.posts == f.posts[pid := f.posts[pid].(n_attentions := f.posts[pid].n_attentions + (if on then 1 else -1))]
    requires f'.comments == f.comments && f'.reactions == f.reactions
    ensures CountersMatch(f', q)
  {
    if on {
      AttendeesAdd(f.attention, h, pid, q);
    } else {
      AttendeesRemove(f.attention, h, pid, q);
    }
    if q != pid {
      CountersFrame(f, f', q);
    } else {
      assert h in Attendees(f.attention, pid) <==> AttentionHas(f.attention, h, pid);
      CardAddRemove(Attendees(f.attention, pid), h);
    }
  }

  // ------------------------------------------------------------ reactions

  /** The reaction sets after a status, and the changes in their sizes:
      1 joins up and leaves down, -1 the reverse, 0 leaves both. */
  function React(r: Reactions, h: string, status: int): (out: (Reactions, int, int))
    requires status == -1 || status == 0 || status == 1
    ensures status == 1 ==> out.0 == Reactions(r.up + {h}, r.down - {h})
    ensures status == -1 ==> out.0 == Reactions(r.up - {h}, r.down + {h})
    ensures status == 0 ==> out.0 == Reactions(r.up - {h}, r.down - {h})
    ensures out.1 == |out.0.up| - |r.up| && out.2 == |out.0.down| - |r.down|
    ensures !(h in out.0.up && h in out.0.down)
  {
    CardAddRemove(r.up, h);
    CardAddRemove(r.down, h);
    var inUp := if h in r.up then 1 else 0;
    var inDown := if h in r.down then 1 else 0;
    if status == 1 then (Reactions(r.up + {h}, r.down - {h}), 1 - inUp, -inDown)
    else if status == -1 then (Reactions(r.up - {h}, r.down + {h}), -inUp, 1 - inDown)
    else (Reactions(r.up - {h}, r.down - {h}), -inUp, -inDown)
  }

  lemma CardAddRemove<T>(s: set<T>, x: T)
    ensures |s + {x}| == |s| + (if x in s then 0 else 1)
    ensures |s - {x}| == |s| - (if x in s then 1 else 0)
  {
    if x in s {
      assert s + {x} == s;
      assert s == (s - {x}) + {x};
    } else {
      assert s - {x} == s;
    }
  }

  datatype ReactionReply = ReactionReply(up_votes: int, down_votes: int, reaction_status: int)

  /** The writes of a permitted reaction: the reaction sets always, the
      post's vote counters only when a set changed. */
  function Reacted(f: Forum, pid: int, h: string, status: int): (r: Step<ReactionReply>)
    requires pid in f.posts && (status == -1 || status == 0 || status == 1)
    ensures var p := f.posts[pid];
      var out := React(ReactionsOf(f, pid), h, status);
      && r.forum == f.(reactions := f.reactions[pid := out.0], posts := f.posts[pid := Bump(p, out.1, out.2)])
      && r.reply == Ok(ReactionReply(p.up_votes + out.1, p.down_votes + out.2, status))
  {
    var p := f.posts[pid];
    var out := React(ReactionsOf(f, pid), h, status);
    var f1 := f.(reactions := f.reactions[pid := out.0]);
    if out.1 != 0 || out.2 != 0 then
      var p' := Bump(p, out.1, out.2);
      Step(f1.(posts := f1.posts[pid := p']), Ok(ReactionReply(p'.up_votes, p'.down_votes, status)))
    else
      assert out.1 == 0 && out.2 == 0;
      BumpZero(f.posts, pid);
      assert f1.posts == f.posts;
      Step(f1, Ok(ReactionReply(p.up_votes, p.down_votes, status)))
  }

  /** A post with its vote counters moved by the given amounts. */
  function Bump(p: Post, du: int, dd: int): (p': Post)
    ensures p'.up_votes == p.up_votes + du && p'.down_votes == p.down_votes + dd
    ensures p' == p.(up_votes := p'.up_votes, down_votes := p'.down_votes)
  {
    p.(up_votes := p.up_votes + du, down_votes := p.down_votes + dd)
  }

  lemma BumpZero(posts: map<int, Post>, pid: int)
    requires pid in posts
    ensures posts[pid := Bump(posts[pid], 0, 0)] == posts
  {
    assert Bump(posts[pid], 0, 0) == posts[pid];
  }

  /** `reaction`: record the user's reaction to a post they may read, and
      update the vote counters when a set changed. */
  function Reaction(f: Forum, user: CurrentUser, pid: int, status: int): (r: Step<ReactionReply>)
    ensures status != -1 && status != 0 && status != 1 ==> r == Step(f, Err(Form))
    ensures (status == -1 || status == 0 || status == 1) && user.id.None? ==> r == Step(f, Err(Pc(YouAreTmp)))
    ensures (status == -1 || status == 0 || status == 1) && user.id.Some? && pid !in f.posts ==> r == Step(f, Err(Db))
    ensures ((status == -1 || status == 0 || status == 1) && user.id.Some? && pid in f.posts
             && CheckPermission(PostUgc(f.posts[pid]), user, "r").Err?) ==>
      r == Step(f, Err(CheckPermission(PostUgc(f.posts[pid]), user, "r").error))
    ensures ((status == -1 || status == 0 || status == 1) && user.id.Some? && pid in f.posts
             && !user.is_admin && f.posts[pid].is_deleted) ==>
      r == Step(f, Err(Pc(PolicyError.IsDeleted)))
    ensures r.reply.Ok? ==> pid in f.posts && CheckPermission(PostUgc(f.posts[pid]), user, "r").Ok?
    ensures r.reply.Ok? ==> (pid in f.posts && pid in r.forum.posts
      && r.reply.value == ReactionReply(r.forum.posts[pid].up_votes, r.forum.posts[pid].down_votes, status)
      && !(user.namehash in ReactionsOf(r.forum, pid).up && user.namehash in ReactionsOf(r.forum, pid).down))
    ensures r.reply.Err? ==> r.forum == f
    ensures r.reply.Ok? ==> r == Reacted(f, pid, user.namehash, status)
  {
    if status != -1 && status != 0 && status != 1 then Step(f, Err(Form))
    else if user.id.None? then Step(f, Err(Pc(YouAreTmp)))
    else if pid !in f.posts then Step(f, Err(Db))
    else
      match CheckPermission(PostUgc(f.posts[pid]), user, "r")
      case Err(e) => Step(f, Err(e))
      case Ok(_) => Reacted(f, pid, user.namehash, status)
  }

  /** A reaction keeps every post's vote counters equal to the sizes of its
      reaction sets. */
  lemma ReactionCountersMatch(f: Forum, user: CurrentUser, pid: int, status: int)
    requires AllCountersMatch(f)
    ensures AllCountersMatch(Reaction(f, user, pid, status).forum)
  {
    var f' := Reaction(f, user, pid, status).forum;
    if Reaction(f, user, pid, status).reply.Ok? {
      forall q | q in f'.posts
        ensures CountersMatch(f', q)
      {
        assert CountersMatch(f, q);
        if q != pid {
          CountersFrame(f, f', q);
        }
      }
    }
  }

  /** The same status given twice moves nothing the second time. */
  lemma ReactTwice(r: Reactions, h: string, status: int)
    requires status == -1 || status == 0 || status == 1
    ensures var rs := React(r, h, status).0;
      React(rs, h, status) == (rs, 0, 0)
  {
    var rs := React(r, h, status).0;
    if status == 1 {
      assert rs.up + {h} == rs.up && rs.down - {h} == rs.down;
    } else if status == -1 {
      assert rs.up - {h} == rs.up && rs.down + {h} == rs.down;
    } else {
      assert rs.up - {h} == rs.up && rs.down - {h} == rs.down;
    }
  }

  lemma ReactedIdempotent(f: Forum, pid: int, h: string, status: int)
    requires pid in f.posts && (status == -1 || status == 0 || status == 1)
    ensures var f1 := Reacted(f, pid, h, status).forum;
      Reacted(f1, pid, h, status).forum == f1
  {
    var f1 := Reacted(f, pid, h, status).forum;
    var rs := React(ReactionsOf(f, pid), h, status).0;
    assert ReactionsOf(f1, pid) == rs;
    ReactTwice(ReactionsOf(f, pid), h, status);
    BumpZero(f1.posts, pid);
    assert f1.reactions[pid := rs] == f1.reactions;
  }

  /** Reacting twice the same way changes nothing the second time. */
  lemma ReactionIdempotent(f: Forum, user: CurrentUser, pid: int, status: int)
    requires Reaction(f, user, pid, status).reply.Ok?
    ensures var f1 := Reaction(f, user, pid, status).forum;
      Reaction(f1, user, pid, status).forum == f1
  {
    var f1 := Reaction(f, user, pid, status).forum;
    assert f1.posts[pid] == f.posts[pid].(up_votes := f1.posts[pid].up_votes, down_votes := f1.posts[pid].down_votes);
    assert CheckPermission(PostUgc(f1.posts[pid]), user, "r") == CheckPermission(PostUgc(f.posts[pid]), user, "r");
    ReactedIdempotent(f, pid, user.namehash, status);
  }
}
