/** What a reader receives for a post and its comments. Commenters are shown
    under per-thread pseudonyms: the post's author is 0 and every other name
    hash gets the next number when it first speaks. Content the reader
    blocked is sent without its text, admins see moderation fields nobody
    else sees, and deleted comments are left out. */
module Output {
  import opened Wrappers
  import opened Entities
  import opened Stores
  import opened Blocking
  import opened Permission
  import opened Poll

  // ------------------------------------------------------------ name ids

  /** The thread's speakers in order of first appearance, the post's author
      first, after the comments written by `hs`. */
  function Roster(author: string, hs: seq<string>): (r: seq<string>)
    ensures |r| >= 1 && r[0] == author
  {
    if |hs| == 0 then [author]
    else
      var r := Roster(author, hs[..|hs| - 1]);
      if hs[|hs| - 1] in r then r else r + [hs[|hs| - 1]]
  }

  /** The roster lists each speaker once, and nobody else. */
  lemma {:induction false} RosterFacts(author: string, hs: seq<string>)
    ensures forall h :: h in Roster(author, hs) <==> h == author || h in hs
    ensures forall i, j :: 0 <= i < j < |Roster(author, hs)| ==> Roster(author, hs)[i] != Roster(author, hs)[j]
  {
    if |hs| > 0 {
      var t := hs[..|hs| - 1];
      RosterFacts(author, t);
      assert hs == t + [hs[|hs| - 1]];
    }
  }

  /** The position of a name in a roster. */
  function IndexOf(r: seq<string>, h: string): (i: nat)
    requires h in r
    ensures i < |r| && r[i] == h
    ensures forall j :: 0 <= j < i ==> r[j] != h
  {
    if r[0] == h then 0 else 1 + IndexOf(r[1..], h)
  }

  /** Reference definition of a comment's pseudonym: its author's place in
      the roster of the thread up to and including that comment. */
  function NameIdRef(author: string, hs: seq<string>, i: nat): nat
    requires i < |hs|
  {
    RosterFacts(author, hs[..i + 1]);
    IndexOf(Roster(author, hs[..i + 1]), hs[i])
  }

  /** One more comment adds its author to the end of the roster, unless the
      author has spoken already. */
  lemma RosterStep(author: string, hs: seq<string>, k: nat)
    requires k < |hs|
    ensures Roster(author, hs[..k + 1]) ==
      if hs[k] in Roster(author, hs[..k]) then Roster(author, hs[..k]) else Roster(author, hs[..k]) + [hs[k]]
  {
    assert hs[..k + 1][..k] == hs[..k];
    assert hs[..k + 1][k] == hs[k];
  }

  /** A roster only grows: a prefix of the comments gives a prefix of the
      roster. */
  lemma {:induction false} RosterGrows(author: string, hs: seq<string>, k: nat)
    requires k <= |hs|
    ensures |Roster(author, hs[..k])| <= |Roster(author, hs)|
    ensures Roster(author, hs[..k]) == Roster(author, hs)[..|Roster(author, hs[..k])|]
    decreases |hs|
  {
    if k == |hs| {
      assert hs[..k] == hs;
    } else {
      var t := hs[..|hs| - 1];
      RosterGrows(author, t, k);
      assert t[..k] == hs[..k];
      RosterStep(author, hs, |hs| - 1);
      assert hs[..|hs|] == hs;
    }
  }

  /** The place of a name already in a shorter roster is its place in any
      longer one. */
  lemma IndexStable(author: string, hs: seq<string>, k: nat, h: string)
    requires k <= |hs| && h in Roster(author, hs[..k])
    ensures h in Roster(author, hs) && IndexOf(Roster(author, hs[..k]), h) == IndexOf(Roster(author, hs), h)
  {
    RosterGrows(author, hs, k);
    var r := Roster(author, hs);
    var r0 := Roster(author, hs[..k]);
    var i := IndexOf(r0, h);
    assert r[i] == h;
    forall m | 0 <= m < i
      ensures r[m] != h
    {
      assert r[m] == r0[m];
    }
  }

  /** A map that numbers every name of a roster by its place in it. */
  ghost predicate Numbering(m: map<string, nat>, r: seq<string>) {
    && (forall h :: h in m <==> h in r)
    && |m| == |r|
    && forall h :: h in m ==> h in r && m[h] == IndexOf(r, h)
  }

  lemma IndexOfAppend(r: seq<string>, h: string, x: string)
    requires x in r
    ensures IndexOf(r + [h], x) == IndexOf(r, x)
  {
    var i := IndexOf(r, x);
    assert (r + [h])[i] == x;
    forall m | 0 <= m < i
      ensures (r + [h])[m] != x
    {
      assert (r + [h])[m] == r[m];
    }
  }

  /** Giving a new name the map's size keeps the numbering. */
  lemma NumberingExtend(m: map<string, nat>, r: seq<string>, h: string)
    requires Numbering(m, r) && h !in r
    requires forall i, j :: 0 <= i < j < |r| ==> r[i] != r[j]
    ensures Numbering(m[h := |m|], r + [h])
  {
    var r' := r + [h];
    var m' := m[h := |m|];
    assert h !in m;
    assert |m'| == |m| + 1;
    forall x | x in m'
      ensures x in r' && m'[x] == IndexOf(r', x)
    {
      if x == h {
        assert r'[|r|] == h;
        forall j | 0 <= j < |r|
          ensures r'[j] != h
        {
          assert r'[j] == r[j];
        }
      } else {
        IndexOfAppend(r, h, x);
      }
    }
  }

  /** `c2output`'s numbering, as the source computes it: a map from name
      hash to number, seeded with the post's author at 0, where a new name
      gets the map's size. */
  method NameIds(author: string, hs: seq<string>) returns (ids: seq<nat>)
    ensures |ids| == |hs|
    ensures forall i :: 0 <= i < |hs| ==> ids[i] == NameIdRef(author, hs, i)
  {
    var hash2id: map<string, nat> := map[author := 0];
    ids := [];
    var k := 0;
    assert hs[..0] == [];
    while k < |hs|
      invariant 0 <= k <= |hs|
      invariant |ids| == k
      invariant Numbering(hash2id, Roster(author, hs[..k]))
      invariant forall i :: 0 <= i < k ==> ids[i] == NameIdRef(author, hs, i)
    {
      var h := hs[k];
      var id: nat := if h in hash2id then hash2id[h] else |hash2id|;
      NameIdStep(author, hs, k, hash2id);
      hash2id := hash2id[h := id];
      ids := ids + [id];
      k := k + 1;
    }
  }

  /** One iteration of the numbering loop: the number it hands out is the
      reference one, and the map stays a numbering of the roster so far. */
  lemma NameIdStep(author: string, hs: seq<string>, k: nat, m: map<string, nat>)
    requires k < |hs|
    requires Numbering(m, Roster(author, hs[..k]))
    ensures var id := if hs[k] in m then m[hs[k]] else |m|;
      id == NameIdRef(author, hs, k) && Numbering(m[hs[k] := id], Roster(author, hs[..k + 1]))
  {
    var h := hs[k];
    var r := Roster(author, hs[..k]);
    RosterStep(author, hs, k);
    RosterFacts(author, hs[..k]);
    if h in m {
      assert m[h := m[h]] == m;
    } else {
      NumberingExtend(m, r, h);
      assert (r + [h])[|r|] == h;
    }
  }

  /** A sequence without repeats has as many elements as its set. */
  lemma {:induction false} DistinctCard(r: seq<string>)
    requires forall i, j :: 0 <= i < j < |r| ==> r[i] != r[j]
    ensures |set h | h in r| == |r|
  {
    if |r| > 0 {
      var t := r[..|r| - 1];
      DistinctCard(t);
      assert (set h | h in r) == (set h | h in t) + {r[|r| - 1]};
      assert r[|r| - 1] !in t;
    }
  }

  /** Pseudonyms identify speakers: two comments share a number exactly when
      they share an author, and the post's author is always 0. */
  lemma NameIdsIdentify(author: string, hs: seq<string>, i: nat, j: nat)
    requires i < |hs| && j < |hs|
    ensures NameIdRef(author, hs, i) == NameIdRef(author, hs, j) <==> hs[i] == hs[j]
    ensures hs[i] == author ==> NameIdRef(author, hs, i) == 0
  {
    IndexStable(author, hs, i + 1, hs[i]);
    IndexStable(author, hs, j + 1, hs[j]);
    assert hs[..i + 1][i] == hs[i] && hs[..j + 1][j] == hs[j];
  }

  /** A name speaking for the first time gets the next unused number. */
  lemma NewSpeakerNext(author: string, hs: seq<string>, i: nat)
    requires i < |hs|
    requires hs[i] != author && hs[i] !in hs[..i]
    ensures NameIdRef(author, hs, i) == |Roster(author, hs[..i])|
  {
    RosterFacts(author, hs[..i]);
    RosterStep(author, hs, i);
    assert hs[..i + 1][..i] == hs[..i];
    assert hs[..i + 1][i] == hs[i];
  }

  // ------------------------------------------------------------ comments

  datatype CommentOutput = CommentOutput(
    cid: int,
    text: string,
    author_title: string,
    can_del: bool,
    name_id: nat,
    is_tmp: bool,
    create_time: int,
    is_blocked: bool,
    blocked_count: Option<int>,
    timestamp: int,
    blocked: bool
  )

  /** The reader may see the text of something written by `author_hash`. */
  predicate CanView(user: CurrentUser, blocked: bool, author_hash: string) {
    user.is_admin || (!blocked && user.id.Some?) || user.namehash == author_hash
  }

  /** One comment's output, given its pseudonym and whether the reader
      blocked its author. */
  function CommentOut(c: Comment, name_id: nat, user: CurrentUser, blocked: bool, counter: Counter): (o: CommentOutput)
    ensures o.cid == c.id && o.name_id == name_id && o.is_blocked == blocked && o.blocked == blocked
    ensures o.text == (if CanView(user, blocked, c.author_hash) then c.content else "")
    ensures o.blocked_count.Some? ==> user.is_admin
    ensures o.can_del <==> CheckPermission(CommentUgc(c), user, "wd").Ok?
    ensures o.timestamp == o.create_time == c.create_time
  {
    CommentOutput(
      c.id,
      if CanView(user, blocked, c.author_hash) then c.content else "",
      c.author_title,
      CheckPermission(CommentUgc(c), user, "wd").Ok?,
      name_id,
      c.is_tmp,
      c.create_time,
      blocked,
      if user.is_admin then GetCount(counter, c.author_hash) else None,
      c.create_time,
      blocked)
  }

  function Authors(cs: seq<Comment>): (hs: seq<string>)
    ensures |hs| == |cs| && forall i :: 0 <= i < |cs| ==> hs[i] == cs[i].author_hash
  {
    seq(|cs|, i requires 0 <= i < |cs| => cs[i].author_hash)
  }

  /** The indices of the comments that are not deleted, in order. */
  function Kept(cs: seq<Comment>): (ks: seq<nat>)
    ensures forall k :: 0 <= k < |ks| ==> ks[k] < |cs| && !cs[ks[k]].is_deleted
    ensures forall i :: 0 <= i < |cs| && !cs[i].is_deleted ==> i in ks
    ensures forall a, b :: 0 <= a < b < |ks| ==> ks[a] < ks[b]
  {
    if |cs| == 0 then []
    else
      var rest := Kept(cs[..|cs| - 1]);
      if cs[|cs| - 1].is_deleted then rest else rest + [|cs| - 1]
  }

  /** Every name the output looks up in the block dict is there. */
  predicate Covers(dict: map<string, bool>, cs: seq<Comment>) {
    forall i :: 0 <= i < |cs| && !cs[i].is_deleted ==> cs[i].author_hash in dict
  }

  /** `out` is the thread as a reader is shown it: one output per comment
      that is not deleted, in order, each numbered by its author's place
      among all the thread's speakers. */
  predicate ShowsLive(out: seq<CommentOutput>, p: Post, cs: seq<Comment>, user: CurrentUser,
                      dict: map<string, bool>, counter: Counter)
    requires Covers(dict, cs)
  {
    && |out| == |Kept(cs)|
    && forall k :: 0 <= k < |out| ==>
         var i := Kept(cs)[k];
         out[k] == CommentOut(cs[i], NameIdRef(p.author_hash, Authors(cs), i), user, dict[cs[i].author_hash], counter)
  }

  /** `c2output`: number every comment, deleted ones included, then emit the
      ones that are not deleted, in order. */
  method C2Output(p: Post, cs: seq<Comment>, user: CurrentUser, dict: map<string, bool>, counter: Counter)
    returns (out: seq<CommentOutput>)
    requires Covers(dict, cs)
    ensures ShowsLive(out, p, cs, user, dict, counter)
  {
    var ids := NameIds(p.author_hash, Authors(cs));
    var ks := Kept(cs);
    out := seq(|ks|, k requires 0 <= k < |ks| =>
      CommentOut(cs[ks[k]], ids[ks[k]], user, dict[cs[ks[k]].author_hash], counter));
  }

  // ------------------------------------------------------------ posts

  /** Comments are embedded in a post's output only for short threads. */
  const EMBED_LIMIT: int := 5

  datatype PostOutput = PostOutput(
    pid: int,
    room_id: int,
    text: string,
    cw: Option<string>,
    author_title: Option<string>,
    is_tmp: bool,
    n_attentions: int,
    n_comments: int,
    create_time: int,
    last_comment_time: int,
    allow_search: bool,
    is_reported: Option<bool>,
    comments: Option<seq<CommentOutput>>,
    can_del: bool,
    attention: bool,
    hot_score: Option<int>,
    is_blocked: bool,
    poll: Option<PollDict>,
    timestamp: int,
    likenum: int,
    reply: int,
    blocked: bool
  )

  /** Everything `p2output` reads besides the post and the reader. */
  datatype Context = Context(
    comments: seq<Comment>,
    blocks: BlockState,
    attention: AttentionStore,
    pollOptions: seq<string>,
    votes: VoteStore)

  /** The names `p2output` asks the block dict about: the embedded comments'
      authors, then the post's author. */
  function HashList(p: Post, embedded: Option<seq<Comment>>): (hs: seq<string>)
    ensures |hs| >= 1 && hs[|hs| - 1] == p.author_hash
    ensures embedded.Some? ==> forall c :: c in embedded.value ==> c.author_hash in hs
  {
    match embedded
    case None => [p.author_hash]
    case Some(cs) => Authors(cs) + [p.author_hash]
  }

  function NoneIfEmpty(s: string): (r: Option<string>)
    ensures r.None? <==> s == ""
    ensures r.Some? ==> r.value == s
  {
    if s == "" then None else Some(s)
  }

  /** After the block dict is consulted for a post with its comments
      embedded, it answers for every comment's author. */
  lemma LookupCovers(dict: map<string, bool>, st: BlockState, user: CurrentUser, p: Post, cs: seq<Comment>)
    ensures Covers(GetOrCreate(dict, st, user, HashList(p, Some(cs))).0, cs)
  {
    forall i | 0 <= i < |cs| && !cs[i].is_deleted
      ensures cs[i].author_hash in GetOrCreate(dict, st, user, HashList(p, Some(cs))).0
    {
      assert cs[i] in cs;
    }
  }

  /** The comments `p2output` embeds: the whole thread when it is short,
      none otherwise. */
  function Embedded(p: Post, cs: seq<Comment>): (e: Option<seq<Comment>>)
    ensures e.Some? <==> p.n_comments < EMBED_LIMIT
    ensures e.Some? ==> e.value == cs
  {
    if p.n_comments < EMBED_LIMIT then Some(cs) else None
  }

  /** The comments `p2output` embeds, as `c2output` shows them, once the
      dict has been consulted for the post. */
  method EmbedComments(p: Post, user: CurrentUser, dict: map<string, bool>, ctx: Context, dict': map<string, bool>)
    returns (comments: Option<seq<CommentOutput>>)
    requires dict' == GetOrCreate(dict, ctx.blocks, user, HashList(p, Embedded(p, ctx.comments))).0
    ensures comments.Some? <==> p.n_comments < EMBED_LIMIT
    ensures comments.Some? ==>
      Covers(dict', ctx.comments) && ShowsLive(comments.value, p, ctx.comments, user, dict', ctx.blocks.counter)
  {
    comments := None;
    if p.n_comments < EMBED_LIMIT {
      LookupCovers(dict, ctx.blocks, user, p, ctx.comments);
      var cos := C2Output(p, ctx.comments, user, dict', ctx.blocks.counter);
      comments := Some(cos);
    }
  }

  /** The block dict consulted for the post's names, and its answer for
      the post's author. */
  method LookupAuthor(p: Post, user: CurrentUser, dict: map<string, bool>, ctx: Context)
    returns (dict': map<string, bool>, is_blocked: bool)
    ensures dict' == GetOrCreate(dict, ctx.blocks, user, HashList(p, Embedded(p, ctx.comments))).0
    ensures p.author_hash in dict' && is_blocked == dict'[p.author_hash]
    ensures Fresh(dict, ctx.blocks, user) ==> is_blocked == CheckIfBlock(ctx.blocks, user, p.author_hash)
  {
    var hs := HashList(p, Embedded(p, ctx.comments));
    dict' := GetOrCreate(dict, ctx.blocks, user, hs).0;
    assert p.author_hash in hs;
    is_blocked := dict'[p.author_hash];
    if Fresh(dict, ctx.blocks, user) {
      OutputFollowsBlocks(p, user, dict, ctx);
    }
  }

  /** `p2output`: consult (and extend) the reader's block dict for this post,
      then project the post. Returns the dict afterwards with the output. */
  method P2Output(p: Post, user: CurrentUser, dict: map<string, bool>, ctx: Context)
    returns (dict': map<string, bool>, o: PostOutput)
    ensures dict' == GetOrCreate(dict, ctx.blocks, user, HashList(p, Embedded(p, ctx.comments))).0
    ensures o.comments.Some? <==> p.n_comments < EMBED_LIMIT
    ensures o.comments.Some? ==>
      Covers(dict', ctx.comments) && ShowsLive(o.comments.value, p, ctx.comments, user, dict', ctx.blocks.counter)
    ensures o.is_blocked == o.blocked == dict'[p.author_hash]
    ensures Fresh(dict, ctx.blocks, user) ==> o.is_blocked == CheckIfBlock(ctx.blocks, user, p.author_hash)
    ensures (Fresh(dict, ctx.blocks, user) && !user.is_admin && user.id.Some? && user.namehash != p.author_hash) ==>
      o.text == (if CheckIfBlock(ctx.blocks, user, p.author_hash) then "" else p.content)
    ensures o.text == (if CanView(user, o.is_blocked, p.author_hash) then p.content else "")
    ensures o.poll == (if CanView(user, o.is_blocked, p.author_hash)
                       then GetPollDict(ctx.pollOptions, ctx.votes, p.id, user.namehash) else None)
    ensures o.is_reported == (if user.is_admin then Some(p.is_reported) else None)
    ensures o.hot_score == (if user.is_admin then Some(p.hot_score) else None)
    ensures o.can_del <==> CheckPermission(PostUgc(p), user, "wd").Ok?
    ensures o.attention == AttentionHas(ctx.attention, user.namehash, p.id)
    ensures o.likenum == o.n_attentions == p.n_attentions
    ensures o.reply == o.n_comments == p.n_comments
    ensures o.timestamp == o.create_time == p.create_time
    ensures o.pid == p.id && o.room_id == p.room_id && o.is_tmp == p.is_tmp
    ensures o.last_comment_time == p.last_comment_time && o.allow_search == p.allow_search
    ensures o.cw == NoneIfEmpty(p.cw) && o.author_title == NoneIfEmpty(p.author_title)
  {
    var is_blocked;
    dict', is_blocked := LookupAuthor(p, user, dict, ctx);
    var can_view := CanView(user, is_blocked, p.author_hash);
    var comments := EmbedComments(p, user, dict, ctx, dict');
    o := PostOutput(
      p.id,
      p.room_id,
      if can_view then p.content else "",
      NoneIfEmpty(p.cw),
      NoneIfEmpty(p.author_title),
      p.is_tmp,
      p.n_attentions,
      p.n_comments,
      p.create_time,
      p.last_comment_time,
      p.allow_search,
      if user.is_admin then Some(p.is_reported) else None,
      comments,
      CheckPermission(PostUgc(p), user, "wd").Ok?,
      AttentionHas(ctx.attention, user.namehash, p.id),
      if user.is_admin then Some(p.hot_score) else None,
      is_blocked,
      if can_view then GetPollDict(ctx.pollOptions, ctx.votes, p.id, user.namehash) else None,
      p.create_time,
      p.n_attentions,
      p.n_comments,
      is_blocked);
  }

  /** With a block dict that agrees with the block state, the dict
      `p2output` ends with answers every name it asked about (the post's
      author and, for a short thread, every comment's author) exactly as the
      block state does; so a non-admin reader with an id who did not write
      the post sees its text exactly when its author is not blocked. */
  lemma OutputFollowsBlocks(p: Post, user: CurrentUser, dict: map<string, bool>, ctx: Context)
    requires Fresh(dict, ctx.blocks, user)
    ensures var d := GetOrCreate(dict, ctx.blocks, user, HashList(p, Embedded(p, ctx.comments))).0;
      && Fresh(d, ctx.blocks, user)
      && p.author_hash in d && d[p.author_hash] == CheckIfBlock(ctx.blocks, user, p.author_hash)
      && (p.n_comments < EMBED_LIMIT ==> forall i :: 0 <= i < |ctx.comments| ==>
            ctx.comments[i].author_hash in d
            && d[ctx.comments[i].author_hash] == CheckIfBlock(ctx.blocks, user, ctx.comments[i].author_hash))
      && (!user.is_admin && user.id.Some? && user.namehash != p.author_hash ==>
            (CanView(user, d[p.author_hash], p.author_hash) <==> !CheckIfBlock(ctx.blocks, user, p.author_hash)))
  {
    var hs := HashList(p, Embedded(p, ctx.comments));
    GetOrCreateAgrees(dict, ctx.blocks, user, hs);
    assert p.author_hash in hs;
    if p.n_comments < EMBED_LIMIT {
      forall i | 0 <= i < |ctx.comments|
        ensures ctx.comments[i].author_hash in hs
      {
        assert ctx.comments[i] in ctx.comments;
      }
    }
  }

  /** The reply of `get_comment`: the thread as the reader is shown it, the
      post's attention count (twice, once under its old name `likenum`), and
      whether the reader follows the post. */
  datatype CommentsReply = CommentsReply(
    data: seq<CommentOutput>,
    n_attentions: int,
    likenum: int,
    attention: bool)

  /** `get_comment`: a missing post is a database error, and the comments of
      a deleted post are refused to everyone, admins included. Returns the
      reader's block dict afterwards with the reply. */
  method GetComment(post: Option<Post>, user: CurrentUser, dict: map<string, bool>, ctx: Context)
    returns (r: Result<(map<string, bool>, CommentsReply), ApiError>)
    ensures post.None? ==> r == Err(Db)
    ensures post.Some? && post.value.is_deleted ==> r == Err(Pc(PolicyError.IsDeleted))
    ensures r.Ok? <==> post.Some? && !post.value.is_deleted
    ensures r.Ok? ==> (r.value.0 == GetOrCreate(dict, ctx.blocks, user, Authors(ctx.comments)).0
      && Covers(r.value.0, ctx.comments)
      && ShowsLive(r.value.1.data, post.value, ctx.comments, user, r.value.0, ctx.blocks.counter))
    ensures r.Ok? ==> (r.value.1.n_attentions == r.value.1.likenum == post.value.n_attentions
      && r.value.1.attention == AttentionHas(ctx.attention, user.namehash, post.value.id))
  {
    if post.None? {
      return Err(Db);
    }
    var p := post.value;
    if p.is_deleted {
      return Err(Pc(PolicyError.IsDeleted));
    }
    var hs := Authors(ctx.comments);
    var dict' := GetOrCreate(dict, ctx.blocks, user, hs).0;
    forall i | 0 <= i < |ctx.comments| && !ctx.comments[i].is_deleted
      ensures ctx.comments[i].author_hash in dict'
    {
      assert hs[i] in hs;
    }
    var cos := C2Output(p, ctx.comments, user, dict', ctx.blocks.counter);
    var reply := CommentsReply(cos, p.n_attentions, p.n_attentions,
                               AttentionHas(ctx.attention, user.namehash, p.id));
    return Ok((dict', reply));
  }
}
