/** Who may do what to user-generated content. A check is asked for with a
    mode string whose letters name the conditions to test: 'r' the item is
    not deleted, 'o' it is not reported, 'w' the user wrote it, 'd' it is of
    a kind that may be deleted. Admins pass every check. */
module Permission {
  import opened Wrappers
  import opened Entities

  /** A post or a comment, seen through the accessors the check uses. */
  datatype Ugc = PostUgc(post: Post) | CommentUgc(comment: Comment)

  function AuthorHash(u: Ugc): string {
    match u
    case PostUgc(p) => p.author_hash
    case CommentUgc(c) => c.author_hash
  }

  function Deleted(u: Ugc): bool {
    match u
    case PostUgc(p) => p.is_deleted
    case CommentUgc(c) => c.is_deleted
  }

  /** Comments cannot be reported, so they never count as reported. */
  function Reported(u: Ugc): (b: bool)
    ensures u.CommentUgc? ==> !b
  {
    match u
    case PostUgc(p) => p.is_reported
    case CommentUgc(_) => false
  }

  /** Room 42 is kept: its posts cannot be deleted by their authors. */
  const UNDELETABLE_ROOM: int := 42

  function ExtraDeleteCondition(u: Ugc): (b: bool)
    ensures u.CommentUgc? ==> b
  {
    match u
    case PostUgc(p) => p.room_id != UNDELETABLE_ROOM
    case CommentUgc(_) => true
  }

  /** `Ugc::check_permission`: the tests run in the order r, o, w, d and the
      first one that fails decides the error. */
  function CheckPermission(u: Ugc, user: CurrentUser, mode: string): (r: Result<(), ApiError>)
    ensures user.is_admin ==> r.Ok?
    ensures r.Ok? <==> user.is_admin || Passes(u, user, mode)
    ensures r.Err? ==> r.error == Pc(PolicyError.IsDeleted) || r.error == Pc(PolicyError.IsReported) || r.error == Pc(NotAllowed)
  {
    if user.is_admin then Ok(())
    else if 'r' in mode && Deleted(u) then Err(Pc(PolicyError.IsDeleted))
    else if 'o' in mode && Reported(u) then Err(Pc(PolicyError.IsReported))
    else if 'w' in mode && AuthorHash(u) != user.namehash then Err(Pc(NotAllowed))
    else if 'd' in mode && !ExtraDeleteCondition(u) then Err(Pc(NotAllowed))
    else Ok(())
  }

  /** The item meets every condition the mode names, taken one letter at a
      time. */
  predicate Passes(u: Ugc, user: CurrentUser, mode: string) {
    forall c :: c in mode ==> LetterHolds(u, user, c)
  }

  /** The condition one letter names; letters other than r, o, w, d name
      none. */
  predicate LetterHolds(u: Ugc, user: CurrentUser, c: char) {
    match c
    case 'r' => !Deleted(u)
    case 'o' => !Reported(u)
    case 'w' => AuthorHash(u) == user.namehash
    case 'd' => ExtraDeleteCondition(u)
    case _ => true
  }

  /** A mode's check is the conjunction of its letters' checks: a mode
      passes exactly when each of its letters passes alone. */
  lemma CheckIsConjunction(u: Ugc, user: CurrentUser, mode: string)
    ensures CheckPermission(u, user, mode).Ok?
      <==> forall i :: 0 <= i < |mode| ==> CheckPermission(u, user, [mode[i]]).Ok?
  {
    if !user.is_admin {
      forall i | 0 <= i < |mode|
        ensures CheckPermission(u, user, [mode[i]]).Ok? <==> LetterHolds(u, user, mode[i])
      {
        assert mode[i] in [mode[i]];
        assert forall c :: c in [mode[i]] ==> c == mode[i];
      }
      if forall i :: 0 <= i < |mode| ==> LetterHolds(u, user, mode[i]) {
        assert Passes(u, user, mode);
      }
    }
  }

  /** Each refusal names the first condition that fails, in the order r, o,
      w, d. */
  lemma FirstFailureDecides(u: Ugc, user: CurrentUser, mode: string)
    requires !user.is_admin
    ensures 'r' in mode && Deleted(u) ==> CheckPermission(u, user, mode) == Err(Pc(PolicyError.IsDeleted))
    ensures ('r' !in mode || !Deleted(u)) && 'o' in mode && Reported(u)
      ==> CheckPermission(u, user, mode) == Err(Pc(PolicyError.IsReported))
    ensures ('r' !in mode || !Deleted(u)) && ('o' !in mode || !Reported(u))
      && (('w' in mode && AuthorHash(u) != user.namehash) || ('d' in mode && !ExtraDeleteCondition(u)))
      ==> CheckPermission(u, user, mode) == Err(Pc(NotAllowed))
  {
  }

  /** The two kinds differ in exactly two places: a comment is never
      refused for being reported, and never refused by the 'd' test. */
  lemma CommentsSkipReportAndRoom(c: Comment, user: CurrentUser, mode: string)
    ensures CheckPermission(CommentUgc(c), user, mode).Ok?
      <==> CheckPermission(CommentUgc(c), user, Without(Without(mode, 'o'), 'd')).Ok?
  {
    var m := Without(Without(mode, 'o'), 'd');
    assert forall ch :: ch in m <==> ch in mode && ch != 'o' && ch != 'd';
  }

  /** The mode with every occurrence of one letter removed. */
  function Without(mode: string, c: char): (r: string)
    ensures forall ch :: ch in r <==> ch in mode && ch != c
  {
    if |mode| == 0 then ""
    else if mode[0] == c then Without(mode[1..], c)
    else [mode[0]] + Without(mode[1..], c)
  }

  /** `Ugc::soft_delete`: mark the item deleted, after an "rwd" check. */
  function SoftDelete(u: Ugc, user: CurrentUser): (r: Result<Ugc, ApiError>)
    ensures r.Ok? <==> CheckPermission(u, user, "rwd").Ok?
    ensures r.Ok? ==> (Deleted(r.value) && AuthorHash(r.value) == AuthorHash(u)
      && r.value.PostUgc? == u.PostUgc?)
    ensures r.Err? ==> r.error == CheckPermission(u, user, "rwd").error
  {
    match CheckPermission(u, user, "rwd")
    case Err(e) => Err(e)
    case Ok(_) =>
      match u
      case PostUgc(p) => Ok(PostUgc(p.(is_deleted := true)))
      case CommentUgc(c) => Ok(CommentUgc(c.(is_deleted := true)))
  }

  /** Who can soft-delete: an admin always; anyone else only their own item
      that is not yet deleted and, for a post, not in room 42. A second
      delete by the author is refused. */
  lemma SoftDeleteWho(u: Ugc, user: CurrentUser)
    ensures SoftDelete(u, user).Ok? <==>
      user.is_admin || (!Deleted(u) && AuthorHash(u) == user.namehash && ExtraDeleteCondition(u))
    ensures !user.is_admin && SoftDelete(u, user).Ok? ==> SoftDelete(SoftDelete(u, user).value, user).Err?
  {
    assert 'r' in "rwd" && 'w' in "rwd" && 'd' in "rwd" && 'o' !in "rwd";
  }
}
