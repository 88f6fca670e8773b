/** The ranked post lists (`PostListCache`): one Redis sorted set per room
    (or for all rooms) and per order mode, holding post ids scored so that
    `ZRANGE` lists them in the mode's order, with a length watermark that
    decides when the caller must refill the list from the database. */
module PostList {
  import opened Wrappers
  import opened Decimal
  import opened Entities
  import opened SortedSet

  /** Below this many entries the list asks to be refilled. */
  const MIN_LENGTH: int := 200
  /** Above this many entries the list is cut back. */
  const MAX_LENGTH: int := 900
  /** How many entries below `MAX_LENGTH` a cut leaves. */
  const CUT_LENGTH: int := 100

  const I64_MAX: int := 0x7fff_ffff_ffff_ffff

  /** A value of `gen_range(0..i64::MAX)`, the score of the random mode. */
  type RandomScore = x: int | 0 <= x < I64_MAX

  /** The room field of a list key: the room id, or nothing for all rooms. */
  function RoomPart(room: Option<int>): (s: string)
    ensures ':' !in s
  {
    match room
    case Some(i) => IntToStringHasNoColon(i); IntToString(i)
    case None => ""
  }

  /** The Redis key of the list of a room (`None`: all rooms) and a mode. */
  function ListKey(room: Option<int>, mode: U8): string {
    "hole_v2:cache:post_list:" + RoomPart(room) + ":" + NatToString(mode)
  }

  lemma SplitAtColon(a: string, b: string, c: string, d: string)
    requires ':' !in a && ':' !in c
    requires a + ":" + b == c + ":" + d
    ensures a == c && b == d
  {
    var x := a + ":" + b;
    assert x == c + ":" + d;
    assert x[|a|] == ':' && x[|c|] == ':';
    assert forall k :: 0 <= k < |a| ==> x[k] == a[k];
    assert forall k :: 0 <= k < |c| ==> x[k] == c[k];
    assert |a| == |c|;
    assert a == x[..|a|] && c == x[..|c|];
    assert b == x[|a| + 1..] && d == x[|c| + 1..];
  }

  /** Every (room, mode) pair has a key of its own, so the room list and the
      all-rooms list a post belongs to are two different sorted sets. */
  lemma ListKeyInjective(r1: Option<int>, m1: U8, r2: Option<int>, m2: U8)
    requires ListKey(r1, m1) == ListKey(r2, m2)
    ensures r1 == r2 && m1 == m2
  {
    PrefixedSplit("hole_v2:cache:post_list:", RoomPart(r1), NatToString(m1), RoomPart(r2), NatToString(m2));
    NatToStringInjective(m1, m2);
    if r1.Some? && r2.Some? {
      IntToStringInjective(r1.value, r2.value);
    }
  }

  lemma PrefixedSplit(pre: string, a: string, b: string, c: string, d: string)
    requires ':' !in a && ':' !in c
    requires pre + a + ":" + b == pre + c + ":" + d
    ensures a == c && b == d
  {
    var t1 := a + ":" + b;
    var t2 := c + ":" + d;
    assert pre + a + ":" + b == pre + t1;
    assert pre + c + ":" + d == pre + t2;
    assert t1 == (pre + t1)[|pre|..];
    assert t2 == (pre + t2)[|pre|..];
    SplitAtColon(a, b, c, d);
  }

  /** The quantity a mode ranks by, largest first; `None` for the random
      mode 3 and for modes the code does not know. */
  function RankedBy(mode: U8, p: Post): Option<int> {
    match mode
    case 0 => Some(p.id)
    case 1 => Some(p.last_comment_time)
    case 2 => Some(p.hot_score)
    case 4 => Some(p.n_attentions)
    case _ => None
  }

  /** `p2pair`'s score. Modes 0 to 4 are known; any other mode panics.
      Mode 3 takes the random draw `rnd`. */
  function Score(mode: U8, p: Post, rnd: RandomScore): (r: Option<int>)
    ensures r.Some? <==> mode <= 4
    ensures RankedBy(mode, p).Some? ==> r == Some(-RankedBy(mode, p).value)
    ensures mode == 3 ==> r == Some(rnd)
  {
    match mode
    case 0 => Some(-p.id)
    case 1 => Some(-p.last_comment_time)
    case 2 => Some(-p.hot_score)
    case 3 => Some(rnd)
    case 4 => Some(-p.n_attentions)
    case _ => None
  }

  /** `PostListCache`: the mode, the length it last recorded (0 when
      opened), and the sorted set Redis holds under its key. */
  datatype ListCache = ListCache(mode: U8, length: int, zset: ZSet)

  /** The sorted sets of all lists, by key; a missing key is an empty set. */
  type Lists = map<string, ZSet>

  function Open(lists: Lists, room: Option<int>, mode: U8): (c: ListCache)
    ensures c.mode == mode && c.length == 0
  {
    var key := ListKey(room, mode);
    ListCache(mode, 0, if key in lists then lists[key] else [])
  }

  function Save(lists: Lists, room: Option<int>, c: ListCache): Lists {
    lists[ListKey(room, c.mode) := c.zset]
  }

  /** Writing one list leaves the list of every other (room, mode) as it was. */
  lemma SaveIsolated(lists: Lists, room: Option<int>, c: ListCache, room': Option<int>, mode': U8)
    requires (room', mode') != (room, c.mode)
    ensures Open(Save(lists, room, c), room', mode') == Open(lists, room', mode')
    ensures Open(Save(lists, room, c), room, c.mode).zset == c.zset
  {
    if ListKey(room', mode') == ListKey(room, c.mode) {
      ListKeyInjective(room', mode', room, c.mode);
    }
  }

  /** `set_and_check_length`: a list longer than `MAX_LENGTH` is cut to its
      `MAX_LENGTH - CUT_LENGTH` lowest-scored entries and then records
      `MIN_LENGTH`; otherwise it records its cardinality. */
  function SetAndCheckLength(c: ListCache): (r: ListCache)
    ensures r.mode == c.mode
    ensures |c.zset| > MAX_LENGTH ==>
      r.zset == c.zset[..MAX_LENGTH - CUT_LENGTH] && r.length == MIN_LENGTH
    ensures |c.zset| <= MAX_LENGTH ==> r.zset == c.zset && r.length == |c.zset|
    ensures |r.zset| <= MAX_LENGTH
  {
    var l := ZCard(c.zset);
    if l > MAX_LENGTH then
      c.(zset := ZRemRangeByRank(c.zset, MAX_LENGTH - CUT_LENGTH, -1), length := MIN_LENGTH)
    else
      c.(length := l)
  }

  /** A cut keeps exactly the lowest-scored entries: every entry kept ranks
      before every entry dropped. */
  lemma CutKeepsLowest(c: ListCache, i: int, j: int)
    requires |c.zset| > MAX_LENGTH
    requires 0 <= i < MAX_LENGTH - CUT_LENGTH <= j < |c.zset|
    ensures SetAndCheckLength(c).zset[i] == c.zset[i]
    ensures c.zset[j] !in SetAndCheckLength(c).zset
    ensures Before(c.zset[i], c.zset[j])
  {
    var r := SetAndCheckLength(c).zset;
    forall k | 0 <= k < |r|
      ensures r[k] != c.zset[j]
    {
      assert r[k] == c.zset[k];
      assert c.zset[k].member != c.zset[j].member;
    }
  }

  /** `need_fill`: re-check the length, then ask for a refill when the
      recorded length is below `MIN_LENGTH`. */
  function NeedFill(c: ListCache): (r: (ListCache, bool))
    ensures r.0 == SetAndCheckLength(c)
    ensures r.1 <==> |c.zset| < MIN_LENGTH
    ensures r.1 <==> r.0.length < MIN_LENGTH
    ensures |r.0.zset| <= MAX_LENGTH
  {
    var c' := SetAndCheckLength(c);
    (c', c'.length < MIN_LENGTH)
  }

  /** The policy of `put`: a deleted post leaves every list, a reported one
      leaves every list but the newest-first mode 0. */
  predicate Removes(mode: U8, p: Post) {
    p.is_deleted || (mode > 0 && p.is_reported)
  }

  /** `put`: remove or upsert one post. The score is only computed on the
      upsert path, so only that path can panic on an unknown mode. */
  function Put(c: ListCache, p: Post, rnd: RandomScore): (r: Result<ListCache, ApiError>)
    ensures r.Err? <==> !Removes(c.mode, p) && c.mode > 4
    ensures r.Err? ==> r.error == Panic
    ensures r.Ok? ==> r.value.mode == c.mode && r.value.length == c.length
    ensures r.Ok? && Removes(c.mode, p) ==>
      ToMap(r.value.zset) == ToMap(c.zset) - {p.id}
    ensures r.Ok? && !Removes(c.mode, p) ==>
      ToMap(r.value.zset) == ToMap(c.zset)[p.id := Score(c.mode, p, rnd).value]
  {
    if Removes(c.mode, p) then
      Ok(c.(zset := ZRem(c.zset, p.id)))
    else
      match Score(c.mode, p, rnd)
      case None => Err(Panic)
      case Some(s) => Ok(c.(zset := ZAdd(c.zset, s, p.id)))
  }

  /** A deleted post is in no list after `put`, whatever the mode. */
  lemma PutDeletedLeaves(c: ListCache, p: Post, rnd: RandomScore)
    requires p.is_deleted
    ensures Put(c, p, rnd).Ok?
    ensures p.id !in Members(Put(c, p, rnd).value.zset)
  {
  }

  /** A reported but not deleted post stays in the newest-first list and
      leaves every other one. */
  lemma PutReported(c: ListCache, p: Post, rnd: RandomScore)
    requires p.is_reported && !p.is_deleted && c.mode <= 4
    ensures Put(c, p, rnd).Ok?
    ensures p.id in Members(Put(c, p, rnd).value.zset) <==> c.mode == 0
  {
  }

  /** A second `put` of the same post overrides the first: the result is
      that of the second `put` alone. Mode 3 draws a fresh score on every
      `put`, so there the post moves to its new draw; in every other mode
      the draw plays no part and putting a post twice changes nothing the
      second time. */
  lemma PutIdempotent(c: ListCache, p: Post, rnd1: RandomScore, rnd2: RandomScore)
    requires Put(c, p, rnd1).Ok?
    ensures Put(Put(c, p, rnd1).value, p, rnd2) == Put(c, p, rnd2)
    ensures c.mode != 3 ==> Put(Put(c, p, rnd1).value, p, rnd2) == Put(c, p, rnd1)
  {
    PutOverrides(c, p, rnd1, rnd2);
    if c.mode != 3 {
      assert Score(c.mode, p, rnd1) == Score(c.mode, p, rnd2);
    }
  }

  lemma PutOverrides(c: ListCache, p: Post, rnd1: RandomScore, rnd2: RandomScore)
    requires Put(c, p, rnd1).Ok?
    ensures Put(Put(c, p, rnd1).value, p, rnd2) == Put(c, p, rnd2)
  {
    if Removes(c.mode, p) {
      ZRemTwice(c.zset, p.id);
    } else {
      ZAddTwice(c.zset, Score(c.mode, p, rnd1).value, Score(c.mode, p, rnd2).value, p.id);
    }
  }

  /** The upserts of `fill`, in order; the later of two posts with one id
      wins, as in `ZADD` with several pairs. */
  function AddAll(z: ZSet, items: seq<Entry>): (r: ZSet)
    ensures ToMap(r) == ToMap(z) + ItemsMap(items)
    ensures Members(r) == Members(z) + ItemMembers(items)
    decreases |items|
  {
    if |items| == 0 then z
    else
      var z' := ZAdd(z, items[0].score, items[0].member);
      UnionShift(ToMap(z), items[0].member, items[0].score, ItemsMap(items[1..]));
      AddAll(z', items[1..])
  }

  lemma UnionShift(a: map<int, int>, k: int, v: int, b: map<int, int>)
    ensures a[k := v] + b == a + (map[k := v] + b)
  {
  }

  /** The id-to-score map a list of pairs describes, the last pair winning. */
  function ItemsMap(items: seq<Entry>): map<int, int> {
    if |items| == 0 then map[]
    else map[items[0].member := items[0].score] + ItemsMap(items[1..])
  }

  function ItemMembers(items: seq<Entry>): set<int> {
    if |items| == 0 then {} else {items[0].member} + ItemMembers(items[1..])
  }

  function PostIds(ps: seq<Post>): set<int> {
    if |ps| == 0 then {} else {ps[0].id} + PostIds(ps[1..])
  }

  lemma {:induction false} PostIdsCard(ps: seq<Post>)
    ensures |PostIds(ps)| <= |ps|
  {
    if |ps| > 0 {
      PostIdsCard(ps[1..]);
    }
  }

  /** The pairs `fill` hands to `ZADD`: one per post, in order, scored by
      `p2pair` (so `None` when the mode panics on some post). */
  function Items(mode: U8, ps: seq<Post>, rnds: seq<RandomScore>): (r: Option<seq<Entry>>)
    requires |rnds| == |ps|
    ensures r.None? <==> mode > 4 && |ps| > 0
    ensures r.Some? ==> |r.value| == |ps| && ItemMembers(r.value) == PostIds(ps)
    ensures r.Some? ==> forall i :: 0 <= i < |ps| ==>
      r.value[i] == Entry(Score(mode, ps[i], rnds[i]).value, ps[i].id)
  {
    if |ps| == 0 then Some([])
    else match Score(mode, ps[0], rnds[0])
      case None => None
      case Some(s) =>
        match Items(mode, ps[1..], rnds[1..])
        case None => None
        case Some(rest) =>
          assert ([Entry(s, ps[0].id)] + rest)[1..] == rest;
          Some([Entry(s, ps[0].id)] + rest)
  }

  /** The length check only ever drops entries. */
  lemma CheckLengthShrinks(c: ListCache)
    ensures Members(SetAndCheckLength(c).zset) <= Members(c.zset)
  {
    var r := SetAndCheckLength(c).zset;
    forall m | m in Members(r)
      ensures m in Members(c.zset)
    {
      var i := MemberIndex(r, m);
      MembersOf(c.zset, m);
      assert r[i] == c.zset[i];
    }
  }

  /** `fill`: upsert every post given, with no deleted/reported filter, then
      re-check the length. `rnds` are the random draws, one per post. */
  function Fill(c: ListCache, ps: seq<Post>, rnds: seq<RandomScore>): (r: Result<ListCache, ApiError>)
    requires |rnds| == |ps|
    ensures r.Err? <==> c.mode > 4 && |ps| > 0
    ensures r.Ok? ==> r.value.mode == c.mode && |r.value.zset| <= MAX_LENGTH
    ensures r.Ok? ==> Members(r.value.zset) <= Members(c.zset) + PostIds(ps)
    ensures r.Ok? && |c.zset| + |ps| <= MAX_LENGTH ==>
      Members(r.value.zset) == Members(c.zset) + PostIds(ps)
      && r.value.length == |r.value.zset|
  {
    match Items(c.mode, ps, rnds)
    case None => Err(Panic)
    case Some(items) =>
      var z := AddAll(c.zset, items);
      FillBound(c.zset, z, ps);
      CheckLengthShrinks(c.(zset := z));
      Ok(SetAndCheckLength(c.(zset := z)))
  }

  lemma FillBound(z0: ZSet, z: ZSet, ps: seq<Post>)
    requires Members(z) == Members(z0) + PostIds(ps)
    ensures |z0| + |ps| <= MAX_LENGTH ==> |z| <= MAX_LENGTH
  {
    DistinctCount(z0);
    DistinctCount(z);
    PostIdsCard(ps);
    assert |Members(z0) + PostIds(ps)| <= |Members(z0)| + |PostIds(ps)|;
  }

  /** `get_pids(start, limit)`: the ids ranked `start` to
      `start + limit - 1`, lowest score first. */
  function GetPids(c: ListCache, start: int, limit: int): (r: seq<int>)
    ensures 0 <= start && 1 <= limit && start < |c.zset| ==>
      var hi := if start + limit <= |c.zset| then start + limit else |c.zset|;
      r == MemberList(c.zset[start..hi])
    ensures 0 <= start && 1 <= limit && start >= |c.zset| ==> r == []
  {
    MemberList(ZRange(c.zset, start, start + limit - 1))
  }

  /** Asking for zero ids from the top gives the whole list: the stop rank
      -1 is Redis's "last". */
  lemma GetPidsZeroLimit(c: ListCache)
    ensures GetPids(c, 0, 0) == MemberList(c.zset)
  {
  }

  /** `clear`: the key is deleted. */
  function Clear(c: ListCache): (r: ListCache)
    ensures r.mode == c.mode && r.length == c.length
    ensures Members(r.zset) == {}
  {
    c.(zset := [])
  }

  /** The scores of a list are the ones `p2pair` gives the posts in `table`
      (modes 0, 1, 2 and 4, whose score is not random). */
  predicate ScoredFrom(c: ListCache, table: map<int, Post>) {
    c.mode in {0, 1, 2, 4}
    && forall e :: e in c.zset ==>
         e.member in table && table[e.member].id == e.member
         && e.score == -RankedBy(c.mode, table[e.member]).value
  }

  /** In a list scored from the posts, a post with a larger ranking quantity
      (newer id, later last comment, hotter, more attended) comes first. */
  lemma RankOrder(c: ListCache, table: map<int, Post>, i: int, j: int)
    requires ScoredFrom(c, table)
    requires 0 <= i < |c.zset| && 0 <= j < |c.zset|
    requires RankedBy(c.mode, table[c.zset[i].member]).value > RankedBy(c.mode, table[c.zset[j].member]).value
    ensures i < j
  {
    assert c.zset[i] in c.zset && c.zset[j] in c.zset;
    ScoresAscend(c.zset, j, i);
  }

  lemma ScoresAscend(z: ZSet, a: int, b: int)
    ensures 0 <= a < b < |z| ==> z[a].score <= z[b].score
  {
  }

  /** Mode 0 lists posts newest first: the ids `get_pids` returns strictly
      decrease. */
  lemma NewestFirst(c: ListCache, table: map<int, Post>, start: int, limit: int)
    requires c.mode == 0 && ScoredFrom(c, table)
    ensures var r := GetPids(c, start, limit);
      forall a, b :: 0 <= a < b < |r| ==> r[a] > r[b]
  {
    var w := ZRange(c.zset, start, start + limit - 1);
    var r := GetPids(c, start, limit);
    forall a, b | 0 <= a < b < |r|
      ensures r[a] > r[b]
    {
      assert Before(w[a], w[b]);
      assert w[a] in c.zset && w[b] in c.zset;
      assert w[a].member != w[b].member;
    }
  }

  /** `put` of the post the table holds keeps a list scored from the
      posts. */
  lemma PutKeepsScored(c: ListCache, table: map<int, Post>, p: Post, rnd: RandomScore)
    requires ScoredFrom(c, table)
    requires p.id in table && table[p.id] == p
    requires Put(c, p, rnd).Ok?
    ensures ScoredFrom(Put(c, p, rnd).value, table)
  {
    if Removes(c.mode, p) {
      forall e | e in Put(c, p, rnd).value.zset
        ensures e in c.zset
      {
        RemIn(c.zset, p.id, e);
      }
    } else {
      ZAddKeepsScored(c, table, Entry(Score(c.mode, p, rnd).value, p.id));
    }
  }

  lemma RemIn(z: ZSet, m: int, e: Entry)
    requires e in ZRem(z, m)
    ensures e in z
  {
  }

  /** The pair a list of mode `mode` holds for a post of the table. */
  predicate ScoredEntry(mode: U8, table: map<int, Post>, e: Entry) {
    e.member in table && table[e.member].id == e.member
    && RankedBy(mode, table[e.member]).Some?
    && e.score == -RankedBy(mode, table[e.member]).value
  }

  /** Upserting a pair scored from the table keeps the list scored from
      it. */
  lemma ZAddKeepsScored(c: ListCache, table: map<int, Post>, x: Entry)
    requires ScoredFrom(c, table) && ScoredEntry(c.mode, table, x)
    ensures ScoredFrom(c.(zset := ZAdd(c.zset, x.score, x.member)), table)
  {
    var r := ZAdd(c.zset, x.score, x.member);
    ToMapKeys(c.zset);
    ToMapKeys(r);
    forall e | e in r
      ensures e.member in table && table[e.member].id == e.member
      ensures e.score == -RankedBy(c.mode, table[e.member]).value
    {
      var i :| 0 <= i < |r| && r[i] == e;
      ToMapAt(r, i);
      if e.member != x.member {
        MembersOf(c.zset, e.member);
        var k := MemberIndex(c.zset, e.member);
        ToMapAt(c.zset, k);
        assert c.zset[k] in c.zset;
      }
    }
  }

  /** The upserts of `fill` keep a list scored from the table when every
      pair is scored from it. */
  lemma {:induction false} AddAllKeepsScored(c: ListCache, table: map<int, Post>, items: seq<Entry>)
    requires ScoredFrom(c, table)
    requires forall i :: 0 <= i < |items| ==> ScoredEntry(c.mode, table, items[i])
    ensures ScoredFrom(c.(zset := AddAll(c.zset, items)), table)
    decreases |items|
  {
    if |items| > 0 {
      ZAddKeepsScored(c, table, items[0]);
      var c' := c.(zset := ZAdd(c.zset, items[0].score, items[0].member));
      assert forall i :: 0 <= i < |items| - 1 ==> items[1..][i] == items[i + 1];
      AddAllKeepsScored(c', table, items[1..]);
    }
  }

  /** `fill` with posts as the table holds them keeps a list scored from
      the posts: every score is the one `p2pair` gives its post. */
  lemma FillKeepsScored(c: ListCache, table: map<int, Post>, ps: seq<Post>, rnds: seq<RandomScore>)
    requires |rnds| == |ps|
    requires ScoredFrom(c, table)
    requires forall i :: 0 <= i < |ps| ==> ps[i].id in table && table[ps[i].id] == ps[i]
    ensures Fill(c, ps, rnds).Ok?
    ensures ScoredFrom(Fill(c, ps, rnds).value, table)
  {
    var items := Items(c.mode, ps, rnds).value;
    forall i | 0 <= i < |items|
      ensures ScoredEntry(c.mode, table, items[i])
    {
      assert table[ps[i].id] == ps[i];
    }
    AddAllKeepsScored(c, table, items);
    CheckLengthKeepsScored(c.(zset := AddAll(c.zset, items)), table);
  }

  lemma CheckLengthKeepsScored(c: ListCache, table: map<int, Post>)
    requires ScoredFrom(c, table)
    ensures ScoredFrom(SetAndCheckLength(c), table)
  {
    var r := SetAndCheckLength(c);
    forall e | e in r.zset
      ensures e in c.zset
    {
      var i :| 0 <= i < |r.zset| && r.zset[i] == e;
      assert c.zset[i] == e;
    }
  }
}
