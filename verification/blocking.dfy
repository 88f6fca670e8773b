/** Who a reader does not want to see. A name hash is blocked for a user when
    the user blocked it explicitly, or when enough users have blocked it that
    the global counter reaches the reader's threshold (rank × 5). Each post
    memoises the answers for one reader in a Redis hash, the block dict,
    computing only the name hashes it has not seen. */
module Blocking {
  import opened Wrappers
  import opened Entities
  import opened Stores

  /** The Redis state the decision reads: each user's explicit blocks
      ("hole_v2:blocked_users:<id>") and the global counter. */
  datatype BlockState = BlockState(blocked: map<int, set<string>>, counter: Counter)

  function BlockedBy(st: BlockState, uid: int): set<string> {
    if uid in st.blocked then st.blocked[uid] else {}
  }

  /** `BlockedUsers::add`. */
  function BlockAdd(st: BlockState, uid: int, namehash: string): (r: BlockState)
    ensures BlockedBy(r, uid) == BlockedBy(st, uid) + {namehash}
    ensures forall u :: u != uid ==> BlockedBy(r, u) == BlockedBy(st, u)
    ensures r.counter == st.counter
  {
    st.(blocked := st.blocked[uid := BlockedBy(st, uid) + {namehash}])
  }

  /** `BlockedUsers::check_if_block`. */
  function CheckIfBlock(st: BlockState, user: CurrentUser, hash: string): (b: bool)
    ensures b <==>
      (user.id.Some? && hash in BlockedBy(st, user.id.value))
      || GetCount(st.counter, hash).GetOr(0) >= user.auto_block_rank * 5
  {
    (match user.id
     case Some(id) => hash in BlockedBy(st, id)
     case None => false)
    || GetCount(st.counter, hash).GetOr(0) >= user.auto_block_rank * 5
  }

  /** A temporary user (no id) is judged by the counter alone. */
  lemma TmpUserCounterOnly(st: BlockState, user: CurrentUser, hash: string)
    requires user.id.None?
    ensures CheckIfBlock(st, user, hash) <==> GetCount(st.counter, hash).GetOr(0) >= user.auto_block_rank * 5
  {
  }

  /** Rank 0 hides every author, since every counter is at least its
      default 0. */
  lemma RankZeroBlocksAll(st: BlockState, user: CurrentUser, hash: string)
    requires user.auto_block_rank == 0
    requires forall h :: h in st.counter ==> st.counter[h] >= 0
    ensures CheckIfBlock(st, user, hash)
  {
  }

  /** Blocking only spreads: another block or another counter increment
      never unblocks anybody for anybody. */
  lemma BlockMonotone(st: BlockState, user: CurrentUser, hash: string, uid: int, other: string)
    requires CheckIfBlock(st, user, hash)
    ensures CheckIfBlock(BlockAdd(st, uid, other), user, hash)
    ensures CheckIfBlock(st.(counter := CountIncr(st.counter, other)), user, hash)
  {
  }

  /** The counter reaching the reader's threshold blocks the hash. */
  lemma CountReachesThreshold(st: BlockState, user: CurrentUser, hash: string)
    requires GetCount(st.counter, hash).GetOr(0) == user.auto_block_rank * 5 - 1
    ensures CheckIfBlock(st.(counter := CountIncr(st.counter, hash)), user, hash)
  {
  }

  // ---------------------------------------------------------------- block dict

  /** The name hashes of `hashes` the dict does not hold, in order, repeats
      kept (each repeat is looked up again). */
  function Missing(dict: map<string, bool>, hashes: seq<string>): (r: seq<string>)
    ensures forall h :: h in r <==> h in hashes && h !in dict
    ensures |r| <= |hashes|
  {
    if |hashes| == 0 then []
    else if hashes[0] in dict then Missing(dict, hashes[1..])
    else [hashes[0]] + Missing(dict, hashes[1..])
  }

  /** The answers for the missing hashes, as a map. */
  function Answers(st: BlockState, user: CurrentUser, missing: seq<string>): (m: map<string, bool>)
    ensures m.Keys == set h | h in missing
    ensures forall h :: h in m ==> m[h] == CheckIfBlock(st, user, h)
  {
    map h | h in missing :: CheckIfBlock(st, user, h)
  }

  /** `BlockDictCache::get_or_create`: the dict after the call (which is also
      what the Redis hash holds afterwards) and the hashes it looked up. */
  function GetOrCreate(dict: map<string, bool>, st: BlockState, user: CurrentUser, hashes: seq<string>)
    : (r: (map<string, bool>, seq<string>))
    ensures r.1 == Missing(dict, hashes)
    ensures r.0.Keys == dict.Keys + set h | h in hashes
    ensures forall h :: h in dict ==> r.0[h] == dict[h]
    ensures forall h :: h in hashes && h !in dict ==> r.0[h] == CheckIfBlock(st, user, h)
  {
    var missing := Missing(dict, hashes);
    if |missing| == 0 then (dict, missing)
    else (dict + Answers(st, user, missing), missing)
  }

  /** A second call with the same hashes looks nothing up and changes
      nothing. */
  lemma GetOrCreateIdempotent(dict: map<string, bool>, st: BlockState, user: CurrentUser, hashes: seq<string>)
    ensures GetOrCreate(GetOrCreate(dict, st, user, hashes).0, st, user, hashes).1 == []
    ensures GetOrCreate(GetOrCreate(dict, st, user, hashes).0, st, user, hashes).0
      == GetOrCreate(dict, st, user, hashes).0
  {
    var d := GetOrCreate(dict, st, user, hashes).0;
    NothingMissing(d, hashes);
  }

  lemma {:induction false} NothingMissing(dict: map<string, bool>, hashes: seq<string>)
    requires forall h :: h in hashes ==> h in dict
    ensures Missing(dict, hashes) == []
  {
    if |hashes| > 0 {
      assert hashes[0] in hashes;
      assert forall h :: h in hashes[1..] ==> h in hashes;
      NothingMissing(dict, hashes[1..]);
    }
  }

  /** A dict whose every answer agrees with the current block state. */
  predicate Fresh(dict: map<string, bool>, st: BlockState, user: CurrentUser) {
    forall h :: h in dict ==> dict[h] == CheckIfBlock(st, user, h)
  }

  /** While the block state does not change, the memo answers exactly what
      asking directly would. */
  lemma GetOrCreateAgrees(dict: map<string, bool>, st: BlockState, user: CurrentUser, hashes: seq<string>)
    requires Fresh(dict, st, user)
    ensures Fresh(GetOrCreate(dict, st, user, hashes).0, st, user)
    ensures forall h :: h in hashes ==> GetOrCreate(dict, st, user, hashes).0[h] == CheckIfBlock(st, user, h)
  {
  }
}
