/** The small Redis-backed stores beside the caches: the bounded system log,
    the banned, blocked and block-counter records, custom titles, automatic
    block ranks, per-user attention sets and per-option poll voter sets.
    Each store is the value its Redis key holds; a command is a function
    from the old value to the new one (and its reply). */
module Stores {
  import opened Wrappers
  import opened Entities

  // ---------------------------------------------------------------- system log

  const SYSTEMLOG_MAX_LEN: int := 1000

  datatype LogType = AdminDelete | Report | Ban

  /** One log entry; `time` is in seconds. */
  datatype LogEntry = LogEntry(user_hash: string, action_type: LogType, target: string, detail: string, time: int)

  /** `Systemlog::create`: when the list is longer than 1000, keep its first
      1000 entries (`LTRIM 0 999`); then push the new entry at the head. */
  function CreateLog(log: seq<LogEntry>, e: LogEntry): (r: seq<LogEntry>)
    ensures |r| >= 1 && r[0] == e
    ensures |log| <= SYSTEMLOG_MAX_LEN ==> r[1..] == log
    ensures |log| > SYSTEMLOG_MAX_LEN ==> r[1..] == log[..SYSTEMLOG_MAX_LEN]
  {
    var kept := if |log| > SYSTEMLOG_MAX_LEN then log[..SYSTEMLOG_MAX_LEN] else log;
    assert ([e] + kept)[1..] == kept;
    [e] + kept
  }

  /** The log never grows past 1001 entries: the trim runs before the push,
      so a full log of 1000 takes one more entry before it is cut back. */
  lemma {:induction false} LogStaysBounded(log: seq<LogEntry>, es: seq<LogEntry>)
    requires |log| <= SYSTEMLOG_MAX_LEN + 1
    ensures |CreateAll(log, es)| <= SYSTEMLOG_MAX_LEN + 1
    decreases |es|
  {
    if |es| > 0 {
      LogStaysBounded(CreateLog(log, es[0]), es[1..]);
    }
  }

  /** A run of `create` calls, oldest first. */
  function CreateAll(log: seq<LogEntry>, es: seq<LogEntry>): seq<LogEntry>
    decreases |es|
  {
    if |es| == 0 then log else CreateAll(CreateLog(log, es[0]), es[1..])
  }

  /** The newest entry is always at the head, and the one before it second. */
  lemma CreateTwice(log: seq<LogEntry>, a: LogEntry, b: LogEntry)
    ensures |CreateLog(CreateLog(log, a), b)| >= 2
    ensures CreateLog(CreateLog(log, a), b)[0] == b
    ensures CreateLog(CreateLog(log, a), b)[1] == a
  {
    var l1 := CreateLog(log, a);
    var l2 := CreateLog(l1, b);
    if |l1| > SYSTEMLOG_MAX_LEN {
      assert l2[1..][0] == l1[..SYSTEMLOG_MAX_LEN][0];
    } else {
      assert l2[1..][0] == l1[0];
    }
  }

  // ---------------------------------------------------------- set-valued keys

  /** `BannedUsers`: one set of name hashes. */
  function BanAdd(banned: set<string>, namehash: string): (r: set<string>)
    ensures namehash in r
    ensures forall h :: h in r <==> h in banned || h == namehash
  {
    banned + {namehash}
  }

  /** The pids a user attends, keyed by name hash ("hole_v2:attention:<hash>");
      a missing key is the empty set. */
  type AttentionStore = map<string, set<int>>

  function AttentionOf(st: AttentionStore, namehash: string): set<int> {
    if namehash in st then st[namehash] else {}
  }

  /** `Attention::has` (`SISMEMBER`). */
  predicate AttentionHas(st: AttentionStore, namehash: string, pid: int) {
    pid in AttentionOf(st, namehash)
  }

  /** `Attention::add` (`SADD`); the reply is the number of pids newly added. */
  function AttentionAdd(st: AttentionStore, namehash: string, pid: int): (r: (AttentionStore, nat))
    ensures AttentionOf(r.0, namehash) == AttentionOf(st, namehash) + {pid}
    ensures r.1 == if AttentionHas(st, namehash, pid) then 0 else 1
    ensures forall h :: h != namehash ==> AttentionOf(r.0, h) == AttentionOf(st, h)
  {
    (st[namehash := AttentionOf(st, namehash) + {pid}], if AttentionHas(st, namehash, pid) then 0 else 1)
  }

  /** `Attention::remove` (`SREM`). */
  function AttentionRemove(st: AttentionStore, namehash: string, pid: int): (r: AttentionStore)
    ensures AttentionOf(r, namehash) == AttentionOf(st, namehash) - {pid}
    ensures forall h :: h != namehash ==> AttentionOf(r, h) == AttentionOf(st, h)
  {
    st[namehash := AttentionOf(st, namehash) - {pid}]
  }

  /** Adding and removing are inverse on a pid the user did not attend, and
      `has` reads back what the last of them did. */
  lemma AttentionRoundTrip(st: AttentionStore, namehash: string, pid: int)
    ensures AttentionHas(AttentionAdd(st, namehash, pid).0, namehash, pid)
    ensures !AttentionHas(AttentionRemove(st, namehash, pid), namehash, pid)
    ensures !AttentionHas(st, namehash, pid) ==>
      AttentionOf(AttentionRemove(AttentionAdd(st, namehash, pid).0, namehash, pid), namehash)
        == AttentionOf(st, namehash)
  {
  }

  /** The voters of one poll option ("hole_thu:poll_votes:<pid>:<idx>"). */
  type VoteStore = map<(int, nat), set<string>>

  function Voters(st: VoteStore, pid: int, idx: nat): set<string> {
    if (pid, idx) in st then st[(pid, idx)] else {}
  }

  /** `PollVote::has`. */
  predicate VoteHas(st: VoteStore, pid: int, idx: nat, namehash: string) {
    namehash in Voters(st, pid, idx)
  }

  /** `PollVote::add`. */
  function VoteAdd(st: VoteStore, pid: int, idx: nat, namehash: string): (r: VoteStore)
    ensures Voters(r, pid, idx) == Voters(st, pid, idx) + {namehash}
    ensures forall q, j: nat :: (q, j) != (pid, idx) ==> Voters(r, q, j) == Voters(st, q, j)
  {
    st[(pid, idx) := Voters(st, pid, idx) + {namehash}]
  }

  /** `PollVote::count` (`SCARD`). */
  function VoteCount(st: VoteStore, pid: int, idx: nat): (n: nat)
    ensures n == 0 <==> Voters(st, pid, idx) == {}
  {
    |Voters(st, pid, idx)|
  }

  /** Adding a voter twice is adding once, and the count grows by one exactly
      when the voter is new. */
  lemma VoteAddCounts(st: VoteStore, pid: int, idx: nat, namehash: string)
    ensures VoteAdd(VoteAdd(st, pid, idx, namehash), pid, idx, namehash) == VoteAdd(st, pid, idx, namehash)
    ensures VoteCount(VoteAdd(st, pid, idx, namehash), pid, idx)
      == VoteCount(st, pid, idx) + (if VoteHas(st, pid, idx, namehash) then 0 else 1)
  {
    var s := Voters(st, pid, idx);
    if namehash in s {
      assert s + {namehash} == s;
    }
  }

  // ------------------------------------------------------------ hash-valued keys

  /** "hole_v2:title": one hash holding both directions, name hash to title
      and title to name hash, in a single key space. */
  type TitleStore = map<string, string>

  /** `CustomTitle::set`: refuse (reply false, nothing written) when the
      title is already a field; otherwise write both directions. */
  function SetTitle(st: TitleStore, namehash: string, title: string): (r: (TitleStore, bool))
    ensures !r.1 <==> title in st
    ensures !r.1 ==> r.0 == st
    ensures r.1 ==> GetTitle(r.0, namehash) == Some(title) && GetTitle(r.0, title) == Some(namehash)
    ensures forall k :: k != namehash && k != title ==> GetTitle(r.0, k) == GetTitle(st, k)
  {
    if title in st then (st, false)
    else (st[namehash := title][title := namehash], true)
  }

  /** `CustomTitle::get`. */
  function GetTitle(st: TitleStore, namehash: string): Option<string> {
    if namehash in st then Some(st[namehash]) else None
  }

  /** A title can be taken once: after one user sets it, the user reads it
      back and any later attempt, by anyone, is refused. */
  lemma TitleTakenOnce(st: TitleStore, a: string, b: string, title: string)
    requires SetTitle(st, a, title).1
    ensures GetTitle(SetTitle(st, a, title).0, a) == Some(title)
    ensures !SetTitle(SetTitle(st, a, title).0, b, title).1
  {
  }

  /** "hole_v2:blocked_counter": how many users have blocked each name hash. */
  type Counter = map<string, int>

  /** `BlockCounter::get_count`. */
  function GetCount(c: Counter, namehash: string): Option<int> {
    if namehash in c then Some(c[namehash]) else None
  }

  /** `BlockCounter::count_incr` (`HINCRBY 1`, a missing field counting 0). */
  function CountIncr(c: Counter, namehash: string): (r: Counter)
    ensures GetCount(r, namehash).Some?
    ensures GetCount(r, namehash).value == GetCount(c, namehash).GetOr(0) + 1
    ensures forall h :: h != namehash ==> GetCount(r, h) == GetCount(c, h)
  {
    c[namehash := GetCount(c, namehash).GetOr(0) + 1]
  }

  /** "hole_v2:auto_block_rank": each user's threshold rank. */
  type RankStore = map<string, U8>

  const DEFAULT_AUTO_BLOCK_RANK: U8 := 4

  /** `AutoBlockRank::set`. */
  function SetRank(st: RankStore, namehash: string, rank: U8): (r: RankStore)
    ensures GetRank(r, namehash) == rank
    ensures forall h :: h != namehash ==> GetRank(r, h) == GetRank(st, h)
  {
    st[namehash := rank]
  }

  /** `AutoBlockRank::get`: the stored rank, 4 when none is stored. */
  function GetRank(st: RankStore, namehash: string): (r: U8)
    ensures namehash !in st ==> r == DEFAULT_AUTO_BLOCK_RANK
    ensures namehash in st ==> r == st[namehash]
  {
    if namehash in st then st[namehash] else DEFAULT_AUTO_BLOCK_RANK
  }
}
