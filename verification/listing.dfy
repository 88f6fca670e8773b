/** The database listing a page of the timeline is read from when the
    ranked cache cannot answer: filter the posts a reader may list, order
    them by the mode's key, and cut out one page. Also the page arithmetic
    of the `getlist` handler, which is done in `u32`. */
module Listing {
  import opened Wrappers
  import opened Entities
  import PostList

  const U32_MAX: int := 0xffff_ffff

  /** An unsigned 32-bit integer (`u32`), the type of page numbers. */
  type U32 = x: int | 0 <= x <= U32_MAX

  /** Posts per page of the timeline. */
  const PAGE_SIZE: U32 := 25

  // ------------------------------------------------------------ pages

  /** `(page - 1) * page_size` in checked `u32` arithmetic: page 0
      underflows and a product past `u32::MAX` overflows, and either
      panics. */
  function Offset(page: U32, page_size: U32): (r: Result<U32, ApiError>)
    ensures r.Ok? <==> page >= 1 && (page - 1) * page_size <= U32_MAX
    ensures r.Ok? ==> r.value == (page - 1) * page_size
    ensures r.Err? ==> r.error == Panic
  {
    if page == 0 then Err(Panic)
    else if (page - 1) * page_size > U32_MAX then Err(Panic)
    else Ok((page - 1) * page_size)
  }

  /** The start of the requested page in `get_list`: temporary users are
      refused, a missing page number means the first page, and every page
      holds 25 posts. */
  function ListStart(user: CurrentUser, page: Option<U32>): (r: Result<U32, ApiError>)
    ensures user.id.None? ==> r == Err(Pc(YouAreTmp))
    ensures user.id.Some? && page.None? ==> r == Ok(0)
    ensures user.id.Some? && page.Some? ==>
      (r.Ok? <==> 1 <= page.value <= U32_MAX / 25 + 1)
    ensures r.Ok? ==> r.value % 25 == 0 && r.value == (page.GetOr(1) - 1) * 25
  {
    if user.id.None? then Err(Pc(YouAreTmp))
    else Offset(page.GetOr(1), PAGE_SIZE)
  }

  /** Consecutive pages follow each other: the start of page n + 1 is the
      start of page n moved on by one page. */
  lemma ListStartStep(user: CurrentUser, n: U32)
    requires user.id.Some? && n >= 1 && n + 1 <= U32_MAX
    requires ListStart(user, Some(n + 1)).Ok?
    ensures ListStart(user, Some(n)).Ok?
    ensures ListStart(user, Some(n + 1)).value == ListStart(user, Some(n)).value + 25
  {
  }

  // ------------------------------------------------------------ filter

  /** Whether a post is listed: admins see everything; others never see a
      deleted post, and outside mode 0 never a reported one. */
  predicate Listed(p: Post, order_mode: U8, is_admin: bool) {
    is_admin || (!p.is_deleted && (order_mode == 0 || !p.is_reported))
  }

  /** The posts of `ps` that are listed, in their order. */
  function Filter(ps: seq<Post>, order_mode: U8, is_admin: bool): (r: seq<Post>)
    ensures forall p :: multiset(r)[p] == if Listed(p, order_mode, is_admin) then multiset(ps)[p] else 0
    ensures |r| <= |ps|
  {
    if |ps| == 0 then []
    else if Listed(ps[0], order_mode, is_admin) then
      assert ps == [ps[0]] + ps[1..];
      [ps[0]] + Filter(ps[1..], order_mode, is_admin)
    else
      assert ps == [ps[0]] + ps[1..];
      Filter(ps[1..], order_mode, is_admin)
  }

  /** Admins' listings filter nothing out. */
  lemma {:induction false} AdminFiltersNothing(ps: seq<Post>, order_mode: U8)
    ensures Filter(ps, order_mode, true) == ps
  {
    if |ps| > 0 {
      AdminFiltersNothing(ps[1..], order_mode);
      assert ps == [ps[0]] + ps[1..];
    }
  }

  /** The listing filter and the ranked cache's removal policy are the same
      rule seen from two sides: a post leaves a cached list exactly when a
      non-admin listing in the same mode would not show it. */
  lemma CacheRemovesUnlisted(mode: U8, p: Post)
    ensures PostList.Removes(mode, p) <==> !Listed(p, mode, false)
  {
  }

  // ------------------------------------------------------------ order

  /** The key a mode sorts by, ascending: the newest comment first (1), the
      hottest first (2), a random key per row (3), the highest id first (any
      other mode). */
  function SortKey(p: Post, order_mode: U8, rand: int -> int): int {
    match order_mode
    case 1 => -p.last_comment_time
    case 2 => -p.hot_score
    case 3 => rand(p.id)
    case _ => -p.id
  }

  /** For the modes both know, the cache scores a post with the same key
      the listing sorts it by. Mode 4 is the exception: the cache ranks it
      by attention count, the listing falls back to id order. */
  lemma CacheScoresAsListing(mode: U8, p: Post, rnd: PostList.RandomScore, rand: int -> int)
    ensures mode == 0 || mode == 1 || mode == 2 ==> PostList.Score(mode, p, rnd) == Some(SortKey(p, mode, rand))
    ensures mode == 4 ==> SortKey(p, mode, rand) == -p.id && PostList.Score(mode, p, rnd) == Some(-p.n_attentions)
  {
  }

  predicate SortedBy(s: seq<Post>, order_mode: U8, rand: int -> int) {
    forall i, j :: 0 <= i < j < |s| ==> SortKey(s[i], order_mode, rand) <= SortKey(s[j], order_mode, rand)
  }

  /** Each key is at most the next one. */
  predicate StepSorted(s: seq<Post>, order_mode: U8, rand: int -> int) {
    forall i :: 0 <= i < |s| - 1 ==> SortKey(s[i], order_mode, rand) <= SortKey(s[i + 1], order_mode, rand)
  }

  lemma {:induction false} StepSortedIsSorted(s: seq<Post>, order_mode: U8, rand: int -> int)
    requires StepSorted(s, order_mode, rand)
    ensures SortedBy(s, order_mode, rand)
  {
    if |s| > 1 {
      StepSortedIsSorted(s[1..], order_mode, rand);
      forall i, j | 0 <= i < j < |s|
        ensures SortKey(s[i], order_mode, rand) <= SortKey(s[j], order_mode, rand)
      {
        if i > 0 {
          assert s[i] == s[1..][i - 1] && s[j] == s[1..][j - 1];
        } else if j > 1 {
          assert s[1] == s[1..][0] && s[j] == s[1..][j - 1];
        }
      }
    }
  }

  /** Place `x` before the first element with a larger key. */
  function Insert(x: Post, s: seq<Post>, order_mode: U8, rand: int -> int): (r: seq<Post>)
    requires StepSorted(s, order_mode, rand)
    ensures multiset(r) == multiset(s) + multiset{x}
    ensures |r| == |s| + 1 && (r[0] == x || (|s| > 0 && r[0] == s[0]))
    ensures StepSorted(r, order_mode, rand)
  {
    if |s| == 0 || SortKey(x, order_mode, rand) <= SortKey(s[0], order_mode, rand) then [x] + s
    else
      assert s == [s[0]] + s[1..];
      [s[0]] + Insert(x, s[1..], order_mode, rand)
  }

  /** A stable insertion sort by the mode's key. */
  function Sort(s: seq<Post>, order_mode: U8, rand: int -> int): (r: seq<Post>)
    ensures multiset(r) == multiset(s)
    ensures StepSorted(r, order_mode, rand)
  {
    if |s| == 0 then []
    else
      assert s == [s[0]] + s[1..];
      Insert(s[0], Sort(s[1..], order_mode, rand), order_mode, rand)
  }

  // ------------------------------------------------------------ window

  function Min(a: int, b: int): int {
    if a <= b then a else b
  }

  /** `offset(off).limit(limit)`: the elements at positions off .. off +
      limit - 1 that exist. */
  function Window<T>(s: seq<T>, off: nat, limit: nat): (r: seq<T>)
    ensures |r| == Min(limit, |s| - Min(off, |s|))
    ensures forall k :: 0 <= k < |r| ==> r[k] == s[off + k]
  {
    s[Min(off, |s|)..Min(off + limit, |s|)]
  }

  /** The first n pages of size k, one after the other. */
  function Pages<T>(s: seq<T>, k: nat, n: nat): seq<T> {
    if n == 0 then [] else Pages(s, k, n - 1) + Window(s, (n - 1) * k, k)
  }

  /** Reading pages 1, 2, … n in turn yields the first n × k elements
      exactly once each, with nothing skipped or repeated. */
  lemma {:induction false} PagesArePrefix<T>(s: seq<T>, k: nat, n: nat)
    ensures Pages(s, k, n) == s[..Min(n * k, |s|)]
  {
    if n > 0 {
      PagesArePrefix(s, k, n - 1);
      var a := Min((n - 1) * k, |s|);
      var b := Min(n * k, |s|);
      assert n * k == (n - 1) * k + k;
      assert s[..a] + s[a..b] == s[..b];
    }
  }

  // ------------------------------------------------------------ page

  /** `Post::gets_by_page`: the listed posts in the mode's order, one page
      of them. */
  function GetsByPage(ps: seq<Post>, order_mode: U8, page: U32, page_size: U32, is_admin: bool, rand: int -> int)
    : (r: Result<seq<Post>, ApiError>)
    ensures r.Err? <==> Offset(page, page_size).Err?
    ensures r.Err? ==> r.error == Panic
    ensures r.Ok? ==>
      r.value == Window(Sort(Filter(ps, order_mode, is_admin), order_mode, rand), Offset(page, page_size).value, page_size)
  {
    match Offset(page, page_size)
    case Err(e) => Err(e)
    case Ok(off) => Ok(Window(Sort(Filter(ps, order_mode, is_admin), order_mode, rand), off, page_size))
  }

  lemma WindowWithin<T>(s: seq<T>, off: nat, limit: nat)
    ensures forall y :: y in Window(s, off, limit) ==> y in s
  {
  }

  lemma WindowSorted(s: seq<Post>, off: nat, limit: nat, order_mode: U8, rand: int -> int)
    requires SortedBy(s, order_mode, rand)
    ensures SortedBy(Window(s, off, limit), order_mode, rand)
  {
    var w := Window(s, off, limit);
    forall i, j | 0 <= i < j < |w|
      ensures SortKey(w[i], order_mode, rand) <= SortKey(w[j], order_mode, rand)
    {
      assert w[i] == s[off + i] && w[j] == s[off + j];
    }
  }

  lemma FilterWithin(ps: seq<Post>, order_mode: U8, is_admin: bool)
    ensures forall p :: p in Filter(ps, order_mode, is_admin) ==> p in ps && Listed(p, order_mode, is_admin)
  {
    var f := Filter(ps, order_mode, is_admin);
    forall p | p in f
      ensures p in ps && Listed(p, order_mode, is_admin)
    {
      assert multiset(f)[p] > 0;
    }
  }

  /** A page holds at most `page_size` posts, each of them a listed post of
      the table, in the mode's order. */
  lemma PageContents(ps: seq<Post>, order_mode: U8, page: U32, page_size: U32, is_admin: bool, rand: int -> int)
    requires GetsByPage(ps, order_mode, page, page_size, is_admin, rand).Ok?
    ensures var r := GetsByPage(ps, order_mode, page, page_size, is_admin, rand).value;
      && |r| <= page_size
      && (forall p :: p in r ==> p in ps && Listed(p, order_mode, is_admin))
      && SortedBy(r, order_mode, rand)
  {
    var filtered := Filter(ps, order_mode, is_admin);
    var sorted := Sort(filtered, order_mode, rand);
    var off := Offset(page, page_size).value;
    FilterWithin(ps, order_mode, is_admin);
    assert forall p :: p in sorted ==> p in filtered by {
      forall p | p in sorted
        ensures p in filtered
      {
        assert p in multiset(sorted);
      }
    }
    WindowWithin(sorted, off, page_size);
    StepSortedIsSorted(sorted, order_mode, rand);
    WindowSorted(sorted, off, page_size, order_mode, rand);
  }

  /** Non-admins never see a deleted post, and outside mode 0 never a
      reported one. */
  lemma NonAdminHidesRemoved(ps: seq<Post>, order_mode: U8, page: U32, page_size: U32, rand: int -> int)
    requires GetsByPage(ps, order_mode, page, page_size, false, rand).Ok?
    ensures forall p :: p in GetsByPage(ps, order_mode, page, page_size, false, rand).value ==>
      !p.is_deleted && (order_mode > 0 ==> !p.is_reported)
  {
    PageContents(ps, order_mode, page, page_size, false, rand);
  }

  /** When every page's query orders the posts the same way, reading the
      pages of an admin's listing through yields every post exactly once.
      Each page is a query of its own, so this needs an order the database
      must reproduce: keys that are pairwise distinct (always so for the id
      order of modes 0 and 4), and not the `RANDOM()` order of mode 3. */
  lemma AdminPagesHoldAll(ps: seq<Post>, order_mode: U8, page_size: U32, rand: int -> int, n: nat)
    requires order_mode != 3
    requires forall i, j :: 0 <= i < j < |ps| ==> SortKey(ps[i], order_mode, rand) != SortKey(ps[j], order_mode, rand)
    requires page_size > 0 && n * page_size >= |ps|
    ensures multiset(Pages(Sort(ps, order_mode, rand), page_size, n)) == multiset(ps)
  {
    var s := Sort(ps, order_mode, rand);
    PagesArePrefix(s, page_size, n);
    assert |s| == |multiset(s)| == |ps|;
    assert s[..Min(n * page_size, |s|)] == s;
  }

  /** In the random mode 3 every page's query draws its own order, so the
      pages of a listing can show one post twice and another never: with
      two posts, one per page, and the second query's keys the reverse of
      the first's, page 1 and page 2 both show the same post. */
  lemma RandomPagesMayRepeat(p1: Post, p2: Post)
    requires p1.id == 1 && p2.id == 2
    ensures GetsByPage([p1, p2], 3, 1, 1, true, Identity) == Ok([p1])
    ensures GetsByPage([p1, p2], 3, 2, 1, true, Negated) == Ok([p1])
  {
    FirstPage(p1, p2);
    SecondPageReversed(p1, p2);
  }

  lemma FirstPage(p1: Post, p2: Post)
    requires p1.id == 1 && p2.id == 2
    ensures GetsByPage([p1, p2], 3, 1, 1, true, Identity) == Ok([p1])
  {
    AdminFilterPair(p1, p2);
    SortPair(p1, p2, Identity);
    assert Offset(1, 1) == Ok(0);
    assert Window([p1, p2], 0, 1) == [p1];
  }

  lemma SecondPageReversed(p1: Post, p2: Post)
    requires p1.id == 1 && p2.id == 2
    ensures GetsByPage([p1, p2], 3, 2, 1, true, Negated) == Ok([p1])
  {
    AdminFilterPair(p1, p2);
    SortPair(p1, p2, Negated);
    assert Offset(2, 1) == Ok(1);
    assert Window([p2, p1], 1, 1) == [p1];
  }

  function Identity(x: int): int { x }

  function Negated(x: int): int { -x }

  lemma AdminFilterPair(a: Post, b: Post)
    ensures Filter([a, b], 3, true) == [a, b]
  {
    assert [a, b][1..] == [b];
    assert [b][1..] == [];
  }

  /** Two posts in the random mode, ordered by their draws. */
  lemma SortPair(a: Post, b: Post, rand: int -> int)
    ensures Sort([a, b], 3, rand) == if rand(a.id) <= rand(b.id) then [a, b] else [b, a]
  {
    assert [a, b][1..] == [b];
    assert [b][1..] == [];
    assert Sort([b], 3, rand) == [b];
    assert Insert(a, [], 3, rand) == [a];
  }

  /** In the default order a page runs from the highest id down. */
  lemma NewestFirst(ps: seq<Post>, order_mode: U8, page: U32, page_size: U32, is_admin: bool, rand: int -> int)
    requires order_mode !in {1, 2, 3}
    requires GetsByPage(ps, order_mode, page, page_size, is_admin, rand).Ok?
    ensures var r := GetsByPage(ps, order_mode, page, page_size, is_admin, rand).value;
      forall i, j :: 0 <= i < j < |r| ==> r[i].id >= r[j].id
  {
    var r := GetsByPage(ps, order_mode, page, page_size, is_admin, rand).value;
    PageContents(ps, order_mode, page, page_size, is_admin, rand);
    forall i, j | 0 <= i < j < |r|
      ensures r[i].id >= r[j].id
    {
      assert SortKey(r[i], order_mode, rand) <= SortKey(r[j], order_mode, rand);
    }
  }
}
