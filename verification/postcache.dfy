/** The per-post object cache: one Redis string per post, under the key
    "hole_v2:cache:post:<id>:v2", holding the post's JSON encoding. Reads
    never fail: a connection error, a missing key and a value that does not
    decode all read as "not cached". */
module PostCache {
  import opened Wrappers
  import opened Decimal
  import opened Entities

  function PostKey(id: int): string {
    "hole_v2:cache:post:" + IntToString(id) + ":v2"
  }

  lemma PostKeyInjective(a: int, b: int)
    requires PostKey(a) == PostKey(b)
    ensures a == b
  {
    var pre := "hole_v2:cache:post:";
    var sa := IntToString(a) + ":v2";
    var sb := IntToString(b) + ":v2";
    assert PostKey(a) == pre + sa && PostKey(b) == pre + sb;
    assert sa == (pre + sa)[|pre|..] && sb == (pre + sb)[|pre|..];
    assert IntToString(a) == sa[..|sa| - 3] && IntToString(b) == sb[..|sb| - 3];
    IntToStringInjective(a, b);
  }

  /** A stored value: the encoding of a post, or a string that does not
      decode as one (written by an older release, say). */
  datatype Blob = Encoded(post: Post) | Garbage

  /** The cache's view of Redis: whether the server answers, and its keys. */
  datatype Store = Store(up: bool, kv: map<string, Blob>)

  function Decode(b: Blob): Option<Post> {
    match b
    case Encoded(p) => Some(p)
    case Garbage => None
  }

  /** The value a reachable server holds for a post, decoded. */
  function Lookup(kv: map<string, Blob>, id: int): Option<Post> {
    if PostKey(id) in kv then Decode(kv[PostKey(id)]) else None
  }

  /** The key/value pairs of one `MSET`, applied left to right. */
  function WriteAll(kv: map<string, Blob>, ps: seq<Post>): (r: map<string, Blob>)
    ensures r.Keys == kv.Keys + set i | 0 <= i < |ps| :: PostKey(ps[i].id)
    decreases |ps|
  {
    if |ps| == 0 then kv
    else
      var r := WriteAll(kv[PostKey(ps[0].id) := Encoded(ps[0])], ps[1..]);
      assert forall i :: 1 <= i < |ps| ==> ps[i] == ps[1..][i - 1];
      assert forall i :: 0 <= i < |ps| - 1 ==> ps[1..][i] == ps[i + 1];
      r
  }

  /** `sets`: nothing for an empty slice; otherwise one `MSET` of every
      post, which an unreachable server leaves undone. */
  function Sets(st: Store, ps: seq<Post>): (r: Store)
    ensures r.up == st.up
    ensures |ps| == 0 || !st.up ==> r == st
    ensures st.up ==> r.kv.Keys == st.kv.Keys + set i | 0 <= i < |ps| :: PostKey(ps[i].id)
  {
    if |ps| == 0 then st
    else if !st.up then st
    else st.(kv := WriteAll(st.kv, ps))
  }

  /** `get`: the cached post, if the server answers and the value decodes. */
  function Get(st: Store, id: int): (r: Option<Post>)
    ensures r.Some? <==> st.up && PostKey(id) in st.kv && st.kv[PostKey(id)].Encoded?
    ensures r.Some? ==> st.kv[PostKey(id)] == Encoded(r.value)
  {
    if st.up then Lookup(st.kv, id) else None
  }

  /** The reply of an `MGET` of the keys of `ids`, or `None` for every id
      when the server does not answer. */
  function MGet(st: Store, ids: seq<int>): (r: seq<Option<Post>>)
    ensures |r| == |ids|
  {
    if st.up then seq(|ids|, i requires 0 <= i < |ids| => Lookup(st.kv, ids[i]))
    else seq(|ids|, i => None)
  }

  /** `gets`: an empty list for no ids, a plain `get` for one id (the
      client would send `GET` and not `MGET` for a one-key list), and the
      decoded `MGET` reply otherwise. */
  function Gets(st: Store, ids: seq<int>): (r: seq<Option<Post>>)
    ensures |r| == |ids|
    ensures |ids| == 1 ==> r == [Get(st, ids[0])]
    ensures !st.up ==> forall i :: 0 <= i < |r| ==> r[i].None?
  {
    match |ids|
    case 0 => []
    case 1 => [Get(st, ids[0])]
    case _ => MGet(st, ids)
  }

  /** The one-key special case changes nothing: every answer is the one a
      single `get` of that id gives. */
  lemma GetsPositional(st: Store, ids: seq<int>, i: int)
    requires 0 <= i < |ids|
    ensures Gets(st, ids)[i] == Get(st, ids[i])
  {
  }

  /** After `sets`, reading a post back yields the last post written with
      its id. */
  lemma {:induction false} WriteAllLast(kv: map<string, Blob>, ps: seq<Post>, j: int)
    requires 0 <= j < |ps|
    requires forall k :: j < k < |ps| ==> ps[k].id != ps[j].id
    ensures Lookup(WriteAll(kv, ps), ps[j].id) == Some(ps[j])
    decreases |ps|
  {
    var kv' := kv[PostKey(ps[0].id) := Encoded(ps[0])];
    if j == 0 {
      forall k | 0 <= k < |ps| - 1
        ensures ps[1..][k].id != ps[0].id
      {
        assert ps[1..][k] == ps[k + 1];
      }
      WriteAllOthers(kv', ps[1..], ps[0].id);
    } else {
      forall k | j - 1 < k < |ps| - 1
        ensures ps[1..][k].id != ps[1..][j - 1].id
      {
        assert ps[1..][k] == ps[k + 1];
      }
      WriteAllLast(kv', ps[1..], j - 1);
    }
  }

  /** Ids that `sets` does not write keep their cached value. */
  lemma {:induction false} WriteAllOthers(kv: map<string, Blob>, ps: seq<Post>, id: int)
    requires forall k :: 0 <= k < |ps| ==> ps[k].id != id
    ensures Lookup(WriteAll(kv, ps), id) == Lookup(kv, id)
    decreases |ps|
  {
    if |ps| > 0 {
      if PostKey(ps[0].id) == PostKey(id) {
        PostKeyInjective(ps[0].id, id);
      }
      forall k | 0 <= k < |ps| - 1
        ensures ps[1..][k].id != id
      {
        assert ps[1..][k] == ps[k + 1];
      }
      WriteAllOthers(kv[PostKey(ps[0].id) := Encoded(ps[0])], ps[1..], id);
    }
  }

  lemma SetsThenGet(st: Store, ps: seq<Post>, j: int)
    requires st.up && 0 <= j < |ps|
    requires forall k :: j < k < |ps| ==> ps[k].id != ps[j].id
    ensures Get(Sets(st, ps), ps[j].id) == Some(ps[j])
  {
    WriteAllLast(st.kv, ps, j);
  }

  lemma SetsKeepsOthers(st: Store, ps: seq<Post>, id: int)
    requires forall k :: 0 <= k < |ps| ==> ps[k].id != id
    ensures Get(Sets(st, ps), id) == Get(st, id)
  {
    if |ps| > 0 && st.up {
      WriteAllOthers(st.kv, ps, id);
    }
  }

  /** A round trip through the cache: writing a batch of distinct posts and
      reading their ids back with `gets` returns the batch. */
  lemma SetsThenGets(st: Store, ps: seq<Post>)
    requires st.up
    requires forall a, b :: 0 <= a < b < |ps| ==> ps[a].id != ps[b].id
    ensures Gets(Sets(st, ps), seq(|ps|, i requires 0 <= i < |ps| => ps[i].id))
      == seq(|ps|, i requires 0 <= i < |ps| => Some(ps[i]))
  {
    var ids := seq(|ps|, i requires 0 <= i < |ps| => ps[i].id);
    forall i | 0 <= i < |ps|
      ensures Gets(Sets(st, ps), ids)[i] == Some(ps[i])
    {
      GetsPositional(Sets(st, ps), ids, i);
      SetsThenGet(st, ps, i);
    }
  }

  /** A Redis `SCAN MATCH` pattern with a single '*': the literal text before
      and after the star. */
  datatype Glob = Glob(head: string, tail: string)

  /** `*` matches any run of characters, the empty one included. */
  predicate Matches(g: Glob, key: string) {
    |g.head| + |g.tail| <= |key|
    && key[..|g.head|] == g.head
    && key[|key| - |g.tail|..] == g.tail
  }

  /** `clear_all(pattern)`: delete every key the pattern matches. */
  function ClearAll(st: Store, g: Glob): (r: Store)
    ensures forall k :: k in r.kv <==> k in st.kv && !Matches(g, k)
    ensures forall k :: k in r.kv ==> r.kv[k] == st.kv[k]
  {
    st.(kv := map k | k in st.kv && !Matches(g, k) :: st.kv[k])
  }

  /** The pattern `PostCache` clears with, as written:
      "hole_v2:cache::post:*:v2". */
  const CLEAR_PATTERN_AS_WRITTEN := Glob("hole_v2:cache::post:", ":v2")

  /** The pattern that matches the keys `PostCache` writes:
      "hole_v2:cache:post:*:v2". */
  const CLEAR_PATTERN := Glob("hole_v2:cache:post:", ":v2")

  /** The pattern as written matches no post key: after "hole_v2:cache:" a
      post key continues with 'p', the pattern with ':'. */
  lemma ClearAllAsWrittenMissesPosts(id: int)
    ensures !Matches(CLEAR_PATTERN_AS_WRITTEN, PostKey(id))
  {
    var k := PostKey(id);
    assert k[14] == 'p';
    assert CLEAR_PATTERN_AS_WRITTEN.head[14] == ':';
  }

  /** So clearing with it leaves every cached post readable. */
  lemma ClearAllAsWrittenKeepsPosts(st: Store, id: int)
    ensures Get(ClearAll(st, CLEAR_PATTERN_AS_WRITTEN), id) == Get(st, id)
  {
    ClearAllAsWrittenMissesPosts(id);
  }

  /** With the namespace spelled as the keys spell it, every post key
      matches, and clearing empties the post cache. */
  lemma ClearAllEvictsPosts(st: Store, id: int)
    ensures Matches(CLEAR_PATTERN, PostKey(id))
    ensures Get(ClearAll(st, CLEAR_PATTERN), id).None?
  {
    var k := PostKey(id);
    var pre := "hole_v2:cache:post:";
    assert k == pre + (IntToString(id) + ":v2");
    assert k[..|pre|] == pre;
    assert k == (pre + IntToString(id)) + ":v2";
    assert k[|k| - 3..] == ":v2";
  }
}
