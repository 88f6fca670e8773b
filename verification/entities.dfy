/** The records the forum core works on: posts and comments as stored in the
    relational database, the request's current user, and the error values a
    handler can return. Timestamps are whole seconds since the epoch (the
    value of chrono's `timestamp()`), and counters are unbounded integers. */
module Entities {
  import opened Wrappers

  /** An unsigned byte (`u8`), the type of order modes and block ranks. */
  type U8 = x: int | 0 <= x < 256

  datatype Post = Post(
    id: int,
    author_hash: string,
    content: string,
    cw: string,
    author_title: string,
    is_tmp: bool,
    n_attentions: int,
    n_comments: int,
    create_time: int,
    last_comment_time: int,
    is_deleted: bool,
    is_reported: bool,
    hot_score: int,
    allow_search: bool,
    room_id: int,
    up_votes: int,
    down_votes: int
  )

  datatype Comment = Comment(
    id: int,
    author_hash: string,
    author_title: string,
    is_tmp: bool,
    content: string,
    create_time: int,
    is_deleted: bool,
    allow_search: bool,
    post_id: int
  )

  /** The user a request acts for. A temporary user has no id and may only
      publish and read single threads. `custom_title` is the empty string
      when the user has none. */
  datatype CurrentUser = CurrentUser(
    id: Option<int>,
    namehash: string,
    is_admin: bool,
    is_candidate: bool,
    custom_title: string,
    auto_block_rank: U8
  )

  datatype PolicyError =
    | IsReported
    | IsDeleted
    | NotAllowed
    | TitleUsed
    | TitleProtected
    | InvalidTitle
    | YouAreTmp
    | NoReason
    | UnknownPushEndpoint

  /** What a handler can fail with: a policy refusal, a database error (the
      row asked for does not exist), a request the form guard rejects before
      the handler runs, or a panic of the Rust code (an out-of-range mode,
      an integer overflow, a string slice out of bounds). */
  datatype ApiError =
    | Pc(policy: PolicyError)
    | Db
    | Form
    | Panic
}
