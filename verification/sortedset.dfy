/** A Redis sorted set of post ids, in the canonical form Redis keeps it:
    the entries listed in ascending (score, member) order, each member once.
    Members are post ids; Redis stores them as their decimal strings and
    breaks ties between equal scores by comparing those strings byte-wise.
    `ToMap` gives the id-to-score view, and `CanonicalForm` shows that the
    listing is determined by that view, so the sequence is just the order in
    which `ZRANGE` reports the map. */
module SortedSet {
  import opened Decimal
  import opened LexOrder

  datatype Entry = Entry(score: int, member: int)

  /** The order of `ZRANGE`: ascending score, then member string. */
  predicate Before(x: Entry, y: Entry) {
    x.score < y.score
    || (x.score == y.score && Less(IntToString(x.member), IntToString(y.member)))
  }

  lemma BeforeIrreflexive(x: Entry)
    ensures !Before(x, x)
  {
    LessIrreflexive(IntToString(x.member));
  }

  lemma BeforeTransitive(x: Entry, y: Entry, z: Entry)
    requires Before(x, y) && Before(y, z)
    ensures Before(x, z)
  {
    if x.score == y.score && y.score == z.score {
      LessTransitive(IntToString(x.member), IntToString(y.member), IntToString(z.member));
    }
  }

  lemma BeforeTotal(x: Entry, y: Entry)
    requires x != y
    ensures Before(x, y) || Before(y, x)
  {
    if x.score == y.score {
      if IntToString(x.member) == IntToString(y.member) {
        IntToStringInjective(x.member, y.member);
      }
      LessTotal(IntToString(x.member), IntToString(y.member));
    }
  }

  lemma BeforeAsymmetric(x: Entry, y: Entry)
    requires Before(x, y)
    ensures !Before(y, x)
  {
    if Before(y, x) {
      BeforeTransitive(x, y, x);
      BeforeIrreflexive(x);
    }
  }

  predicate Sorted(s: seq<Entry>) {
    forall i, j :: 0 <= i < j < |s| ==> Before(s[i], s[j])
  }

  predicate Distinct(s: seq<Entry>) {
    forall i, j :: 0 <= i < j < |s| ==> s[i].member != s[j].member
  }

  /** The shape Redis keeps: sorted, and each member at most once. */
  predicate Valid(s: seq<Entry>) {
    Sorted(s) && Distinct(s)
  }

  function Members(s: seq<Entry>): set<int> {
    if |s| == 0 then {} else {s[0].member} + Members(s[1..])
  }

  lemma {:induction false} MembersOf(s: seq<Entry>, m: int)
    ensures m in Members(s) <==> exists i :: 0 <= i < |s| && s[i].member == m
  {
    if |s| > 0 {
      MembersOf(s[1..], m);
      if exists i :: 0 <= i < |s| && s[i].member == m {
        var i :| 0 <= i < |s| && s[i].member == m;
        if i > 0 {
          assert s[1..][i - 1].member == m;
        }
      }
    }
  }

  lemma MemberIndex(s: seq<Entry>, m: int) returns (i: int)
    requires m in Members(s)
    ensures 0 <= i < |s| && s[i].member == m
  {
    MembersOf(s, m);
    i :| 0 <= i < |s| && s[i].member == m;
  }

  function MemberList(s: seq<Entry>): (r: seq<int>)
    ensures |r| == |s|
    ensures forall i :: 0 <= i < |s| ==> r[i] == s[i].member
  {
    if |s| == 0 then [] else [s[0].member] + MemberList(s[1..])
  }

  /** The id-to-score view of the set. */
  function ToMap(s: seq<Entry>): map<int, int> {
    if |s| == 0 then map[] else ToMap(s[1..])[s[0].member := s[0].score]
  }

  lemma {:induction false} ToMapKeys(s: seq<Entry>)
    ensures ToMap(s).Keys == Members(s)
  {
    if |s| > 0 {
      ToMapKeys(s[1..]);
    }
  }

  lemma {:induction false} ToMapAt(s: seq<Entry>, i: int)
    requires Distinct(s)
    requires 0 <= i < |s|
    ensures s[i].member in ToMap(s) && ToMap(s)[s[i].member] == s[i].score
  {
    if i > 0 {
      ToMapAt(s[1..], i - 1);
    }
  }

  /** In a sorted listing the head comes before every later entry. */
  lemma HeadBefore(s: seq<Entry>, x: Entry)
    requires Sorted(s) && |s| > 0
    requires x in s[1..]
    ensures Before(s[0], x)
  {
    var k :| 0 <= k < |s[1..]| && s[1..][k] == x;
    assert s[k + 1] == x;
  }

  /** In a listing without repeats the head's member occurs nowhere else. */
  lemma HeadUnique(s: seq<Entry>)
    requires Distinct(s) && |s| > 0
    ensures s[0].member !in Members(s[1..])
  {
    MembersOf(s[1..], s[0].member);
    forall i | 0 <= i < |s[1..]|
      ensures s[1..][i].member != s[0].member
    {
      assert s[1..][i] == s[i + 1];
    }
  }

  /** `ZREM`: drop the member's entry, if any. */
  function Rem(s: seq<Entry>, m: int): (r: seq<Entry>)
    ensures |r| <= |s|
    ensures forall e :: e in r <==> e in s && e.member != m
  {
    if |s| == 0 then []
    else (if s[0].member == m then [] else [s[0]]) + Rem(s[1..], m)
  }

  lemma {:induction false} RemSorted(s: seq<Entry>, m: int)
    requires Sorted(s)
    ensures Sorted(Rem(s, m))
  {
    if |s| > 0 {
      RemSorted(s[1..], m);
      var rest := Rem(s[1..], m);
      if s[0].member != m {
        var r := [s[0]] + rest;
        forall i, j | 0 <= i < j < |r|
          ensures Before(r[i], r[j])
        {
          if i == 0 {
            assert rest[j - 1] in rest;
            HeadBefore(s, r[j]);
          }
        }
      }
    }
  }

  lemma {:induction false} RemMembers(s: seq<Entry>, m: int)
    ensures Members(Rem(s, m)) == Members(s) - {m}
  {
    if |s| > 0 {
      RemMembers(s[1..], m);
      assert Members(Rem(s, m)) == (if s[0].member == m then {} else {s[0].member}) + Members(Rem(s[1..], m)) by {
        var h: seq<Entry> := if s[0].member == m then [] else [s[0]];
        MembersAppend(h, Rem(s[1..], m));
      }
    }
  }

  lemma {:induction false} MembersAppend(a: seq<Entry>, b: seq<Entry>)
    ensures Members(a + b) == Members(a) + Members(b)
  {
    if |a| > 0 {
      assert (a + b)[1..] == a[1..] + b;
      MembersAppend(a[1..], b);
    } else {
      assert a + b == b;
    }
  }

  lemma {:induction false} RemDistinct(s: seq<Entry>, m: int)
    requires Distinct(s)
    ensures Distinct(Rem(s, m))
  {
    if |s| > 0 {
      RemDistinct(s[1..], m);
      HeadUnique(s);
      var rest := Rem(s[1..], m);
      RemMembers(s[1..], m);
      if s[0].member != m {
        var r := [s[0]] + rest;
        forall i, j | 0 <= i < j < |r|
          ensures r[i].member != r[j].member
        {
          if i == 0 {
            assert rest[j - 1] in rest;
            MembersOf(rest, r[j].member);
          }
        }
      }
    }
  }

  lemma {:induction false} RemSize(s: seq<Entry>, m: int)
    requires Distinct(s)
    ensures m in Members(s) ==> |Rem(s, m)| == |s| - 1
    ensures m !in Members(s) ==> Rem(s, m) == s
  {
    if |s| > 0 {
      HeadUnique(s);
      assert Distinct(s[1..]) by {
        forall i, j | 0 <= i < j < |s[1..]|
          ensures s[1..][i].member != s[1..][j].member
        {
          assert s[1..][i] == s[i + 1] && s[1..][j] == s[j + 1];
        }
      }
      RemSize(s[1..], m);
      if s[0].member == m {
        RemMembers(s[1..], m);
      } else {
        assert s == [s[0]] + s[1..];
      }
    }
  }

  lemma RemValid(s: seq<Entry>, m: int)
    requires Valid(s)
    ensures Valid(Rem(s, m))
    ensures Members(Rem(s, m)) == Members(s) - {m}
    ensures m in Members(s) ==> |Rem(s, m)| == |s| - 1
    ensures m !in Members(s) ==> Rem(s, m) == s
  {
    RemSorted(s, m);
    RemDistinct(s, m);
    RemSize(s, m);
    RemMembers(s, m);
  }

  lemma {:induction false} RemToMap(s: seq<Entry>, m: int)
    requires Valid(s)
    ensures ToMap(Rem(s, m)) == ToMap(s) - {m}
  {
    var r := Rem(s, m);
    RemValid(s, m);
    ToMapKeys(s);
    ToMapKeys(r);
    forall x | x in ToMap(r)
      ensures ToMap(r)[x] == ToMap(s)[x]
    {
      var i := MemberIndex(r, x);
      ToMapAt(r, i);
      assert r[i] in s;
      var j :| 0 <= j < |s| && s[j] == r[i];
      ToMapAt(s, j);
    }
  }

  /** Put an entry whose member is not yet present at its sorted position. */
  function Insert(s: seq<Entry>, e: Entry): (r: seq<Entry>)
    ensures |r| == |s| + 1
    ensures forall x :: x in r <==> x in s || x == e
  {
    if |s| == 0 then [e]
    else if Before(e, s[0]) then [e] + s
    else [s[0]] + Insert(s[1..], e)
  }

  lemma {:induction false} InsertSorted(s: seq<Entry>, e: Entry)
    requires Sorted(s)
    requires e !in s
    ensures Sorted(Insert(s, e))
  {
    var r := Insert(s, e);
    if |s| > 0 {
      if Before(e, s[0]) {
        forall i, j | 0 <= i < j < |r|
          ensures Before(r[i], r[j])
        {
          if i == 0 && j > 1 {
            assert r[j] == s[j - 1];
            BeforeTransitive(e, s[0], s[j - 1]);
          }
        }
      } else {
        BeforeTotal(e, s[0]);
        InsertSorted(s[1..], e);
        var rest := Insert(s[1..], e);
        forall i, j | 0 <= i < j < |r|
          ensures Before(r[i], r[j])
        {
          if i == 0 {
            assert r[j] == rest[j - 1];
            assert rest[j - 1] in rest;
            if rest[j - 1] != e {
              HeadBefore(s, r[j]);
            }
          }
        }
      }
    }
  }

  lemma {:induction false} InsertMembers(s: seq<Entry>, e: Entry)
    ensures Members(Insert(s, e)) == Members(s) + {e.member}
  {
    if |s| > 0 && !Before(e, s[0]) {
      InsertMembers(s[1..], e);
    }
  }

  lemma {:induction false} InsertDistinct(s: seq<Entry>, e: Entry)
    requires Distinct(s)
    requires e.member !in Members(s)
    ensures Distinct(Insert(s, e))
  {
    var r := Insert(s, e);
    if |s| > 0 {
      HeadUnique(s);
      if Before(e, s[0]) {
        forall i, j | 0 <= i < j < |r|
          ensures r[i].member != r[j].member
        {
          if i == 0 {
            MembersOf(s, r[j].member);
          }
        }
      } else {
        InsertDistinct(s[1..], e);
        InsertMembers(s[1..], e);
        var rest := Insert(s[1..], e);
        forall i, j | 0 <= i < j < |r|
          ensures r[i].member != r[j].member
        {
          if i == 0 {
            assert r[j] == rest[j - 1];
            MembersOf(rest, r[j].member);
          }
        }
      }
    }
  }

  lemma InsertValid(s: seq<Entry>, e: Entry)
    requires Valid(s)
    requires e.member !in Members(s)
    ensures Valid(Insert(s, e))
    ensures Members(Insert(s, e)) == Members(s) + {e.member}
  {
    if e in s {
      var i :| 0 <= i < |s| && s[i] == e;
      MembersOf(s, e.member);
    }
    InsertSorted(s, e);
    InsertDistinct(s, e);
    InsertMembers(s, e);
  }

  lemma {:induction false} InsertToMap(s: seq<Entry>, e: Entry)
    requires Valid(s)
    requires e.member !in Members(s)
    ensures ToMap(Insert(s, e)) == ToMap(s)[e.member := e.score]
  {
    var r := Insert(s, e);
    InsertValid(s, e);
    ToMapKeys(s);
    ToMapKeys(r);
    forall x | x in ToMap(r)
      ensures ToMap(r)[x] == ToMap(s)[e.member := e.score][x]
    {
      var i := MemberIndex(r, x);
      ToMapAt(r, i);
      assert r[i] in r;
      if r[i] != e {
        var j :| 0 <= j < |s| && s[j] == r[i];
        ToMapAt(s, j);
      } else {
        assert x == e.member;
      }
    }
  }

  /** `ZADD key score member`: set the member's score, adding it when new. */
  function Add(s: seq<Entry>, score: int, m: int): seq<Entry> {
    Insert(Rem(s, m), Entry(score, m))
  }

  lemma AddSpec(s: seq<Entry>, score: int, m: int)
    requires Valid(s)
    ensures Valid(Add(s, score, m))
    ensures ToMap(Add(s, score, m)) == ToMap(s)[m := score]
    ensures Members(Add(s, score, m)) == Members(s) + {m}
  {
    var t := Rem(s, m);
    RemValid(s, m);
    RemToMap(s, m);
    InsertValid(t, Entry(score, m));
    InsertToMap(t, Entry(score, m));
    OverrideRemoved(ToMap(s), m, score);
    assert Members(s) - {m} + {m} == Members(s) + {m};
  }

  lemma OverrideRemoved(a: map<int, int>, k: int, v: int)
    ensures (a - {k})[k := v] == a[k := v]
  {
  }

  /** Redis's rank normalisation, shared by `ZRANGE` and `ZREMRANGEBYRANK`:
      a negative index counts from the end, the start is clamped at 0 and
      the stop at the last rank; `None` when the range is empty. */
  function RankWindow(n: nat, start: int, stop: int): (w: RankSpan)
    ensures w.Window? ==> 0 <= w.lo <= w.hi <= n
  {
    var a := if start < 0 then n + start else start;
    var b := if stop < 0 then n + stop else stop;
    var a' := if a < 0 then 0 else a;
    if a' > b || a' >= n then NoRanks
    else Window(a', if b >= n then n else b + 1)
  }

  /** A half-open window [lo, hi) of ranks, or nothing. */
  datatype RankSpan = NoRanks | Window(lo: int, hi: int)

  lemma ValidSubrange(s: seq<Entry>, lo: int, hi: int)
    requires Valid(s)
    requires 0 <= lo <= hi <= |s|
    ensures Valid(s[lo..hi])
  {
    var t := s[lo..hi];
    forall i, j | 0 <= i < j < |t|
      ensures Before(t[i], t[j]) && t[i].member != t[j].member
    {
      assert t[i] == s[lo + i] && t[j] == s[lo + j];
    }
  }

  /** A valid listing is fixed by its id-to-score view: two sorted sets with
      the same members and scores list them identically. */
  lemma {:induction false} CanonicalForm(a: seq<Entry>, b: seq<Entry>)
    requires Valid(a) && Valid(b)
    requires ToMap(a) == ToMap(b)
    ensures a == b
  {
    ToMapKeys(a);
    ToMapKeys(b);
    if |a| > 0 && |b| > 0 {
      if a[0] != b[0] {
        assert b[0].member in Members(b);
        var j := MemberIndex(a, b[0].member);
        ToMapAt(a, j);
        ToMapAt(b, 0);
        assert a[j] == b[0];
        assert a[0].member in Members(a);
        var k := MemberIndex(b, a[0].member);
        ToMapAt(a, 0);
        ToMapAt(b, k);
        assert b[k] == a[0];
        assert j > 0 && k > 0;
        assert Before(a[0], a[j]);
        assert Before(b[0], b[k]);
        BeforeAsymmetric(a[0], b[0]);
        assert false;
      }
      var a' := a[1..];
      var b' := b[1..];
      assert a == [a[0]] + a' && b == [b[0]] + b';
      ValidSubrange(a, 1, |a|);
      ValidSubrange(b, 1, |b|);
      HeadUnique(a);
      HeadUnique(b);
      ToMapKeys(a');
      ToMapKeys(b');
      assert ToMap(a') == ToMap(a) - {a[0].member};
      assert ToMap(b') == ToMap(b) - {b[0].member};
      CanonicalForm(a', b');
    }
  }

  lemma ValidCut(s: seq<Entry>, lo: int, hi: int)
    requires Valid(s)
    requires 0 <= lo <= hi <= |s|
    ensures Valid(s[..lo] + s[hi..])
  {
    var t := s[..lo] + s[hi..];
    forall i, j | 0 <= i < j < |t|
      ensures Before(t[i], t[j]) && t[i].member != t[j].member
    {
      var i' := if i < lo then i else i - lo + hi;
      var j' := if j < lo then j else j - lo + hi;
      assert t[i] == s[i'] && t[j] == s[j'];
    }
  }

  lemma {:induction false} DistinctCount(s: seq<Entry>)
    requires Distinct(s)
    ensures |Members(s)| == |s|
  {
    if |s| > 0 {
      HeadUnique(s);
      assert Distinct(s[1..]) by {
        forall i, j | 0 <= i < j < |s[1..]|
          ensures s[1..][i].member != s[1..][j].member
        {
          assert s[1..][i] == s[i + 1] && s[1..][j] == s[j + 1];
        }
      }
      DistinctCount(s[1..]);
    }
  }

  /** A sorted set as Redis holds it under one key. */
  type ZSet = s: seq<Entry> | Valid(s) witness []

  /** `ZADD`: afterwards the member has the given score; nothing else moves. */
  function ZAdd(z: ZSet, score: int, m: int): (r: ZSet)
    ensures ToMap(r) == ToMap(z)[m := score]
    ensures Members(r) == Members(z) + {m}
  {
    AddSpec(z, score, m);
    Add(z, score, m)
  }

  /** A second `ZADD` of a member overrides the first. */
  lemma ZAddTwice(z: ZSet, s1: int, s2: int, m: int)
    ensures ZAdd(ZAdd(z, s1, m), s2, m) == ZAdd(z, s2, m)
  {
    var z1 := ZAdd(z, s1, m);
    var a := ZAdd(z1, s2, m);
    var b := ZAdd(z, s2, m);
    UpdateTwice(ToMap(z), m, s1, s2);
    assert ToMap(a) == ToMap(b);
    CanonicalForm(a, b);
  }

  lemma UpdateTwice(a: map<int, int>, k: int, v1: int, v2: int)
    ensures a[k := v1][k := v2] == a[k := v2]
  {
  }

  /** A second `ZREM` of a member changes nothing. */
  lemma ZRemTwice(z: ZSet, m: int)
    ensures ZRem(ZRem(z, m), m) == ZRem(z, m)
  {
    assert ToMap(z) - {m} - {m} == ToMap(z) - {m};
    CanonicalForm(ZRem(ZRem(z, m), m), ZRem(z, m));
  }

  /** `ZREM`: afterwards the member is gone; nothing else moves. */
  function ZRem(z: ZSet, m: int): (r: ZSet)
    ensures ToMap(r) == ToMap(z) - {m}
    ensures Members(r) == Members(z) - {m}
  {
    RemValid(z, m);
    RemToMap(z, m);
    Rem(z, m)
  }

  /** `ZCARD`: the number of members. */
  function ZCard(z: ZSet): (n: nat)
    ensures n == |Members(z)|
  {
    DistinctCount(z);
    |z|
  }

  /** `ZRANGE`: the entries at the given ranks, lowest score first. */
  function ZRange(z: ZSet, start: int, stop: int): (r: seq<Entry>)
    ensures Valid(r)
    ensures forall e :: e in r ==> e in z
  {
    match RankWindow(|z|, start, stop)
    case NoRanks => []
    case Window(lo, hi) => ValidSubrange(z, lo, hi); z[lo..hi]
  }

  /** `ZREMRANGEBYRANK`: the entries at the given ranks are removed, the rest
      keep their order. */
  function ZRemRangeByRank(z: ZSet, start: int, stop: int): (r: ZSet)
    ensures RankWindow(|z|, start, stop).NoRanks? ==> r == z
    ensures RankWindow(|z|, start, stop).Window? ==>
      var w := RankWindow(|z|, start, stop); r == z[..w.lo] + z[w.hi..]
  {
    match RankWindow(|z|, start, stop)
    case NoRanks => z
    case Window(lo, hi) => ValidCut(z, lo, hi); z[..lo] + z[hi..]
  }
}
