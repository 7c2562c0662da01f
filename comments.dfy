/**
 * Assembly of a project's comment threads (back_end/src/api/comment.rs,
 * `get_comments` and `get_comment_replies`). The comments come from the
 * database in one flat slice, each naming its parent; the top-level
 * comments become roots, every comment's `children` are filled in with its
 * replies in slice order, and the roots are shown newest first.
 *
 * The recursion terminates only when the parent links have no cycle. The
 * model asks for that as a ghost ranking of comment ids that strictly
 * decreases from a parent to each reply.
 */
module Comments {
  import opened Wrappers

  datatype InlineUser = InlineUser(username: string, pictureUrl: string)

  /** A comment; `uploadTime` stands for the timestamp as a number. */
  datatype Comment = Comment(
    id: int,
    user: InlineUser,
    contents: string,
    children: seq<Comment>,
    parentId: Option<int>,
    uploadTime: int)

  /** The comment without its replies: everything the database row holds. */
  function Strip(c: Comment): Comment {
    c.(children := [])
  }

  /** Two slices hold the same rows in the same order; only `children` may differ. */
  ghost predicate Same(a: seq<Comment>, b: seq<Comment>) {
    |a| == |b| && forall i :: 0 <= i < |a| ==> Strip(a[i]) == Strip(b[i])
  }

  function Rank(rank: map<int, nat>, id: int): nat {
    if id in rank then rank[id] else 0
  }

  /** The parent links have no cycle: `rank` decreases from every parent to each reply. */
  ghost predicate Ranked(cs: seq<Comment>, rank: map<int, nat>) {
    forall i :: 0 <= i < |cs| && cs[i].parentId.Some? ==>
      cs[i].id in rank && cs[i].parentId.value in rank && rank[cs[i].id] < rank[cs[i].parentId.value]
  }

  lemma SameRanked(a: seq<Comment>, b: seq<Comment>, rank: map<int, nat>)
    requires Same(a, b) && Ranked(a, rank)
    ensures Ranked(b, rank)
  {
    forall i | 0 <= i < |b| && b[i].parentId.Some?
      ensures b[i].id in rank && b[i].parentId.value in rank && rank[b[i].id] < rank[b[i].parentId.value]
    {
      assert Strip(a[i]) == Strip(b[i]);
    }
  }

  // ---------------------------------------------------------------------
  // Replies
  // ---------------------------------------------------------------------

  /** The ids of the comments among the first `k` whose parent is `id`, in slice order. */
  function ReplyIds(cs: seq<Comment>, k: nat, id: int): seq<int>
    requires k <= |cs|
  {
    if k == 0 then []
    else ReplyIds(cs, k - 1, id) + if cs[k - 1].parentId == Some(id) then [cs[k - 1].id] else []
  }

  function Ids(rs: seq<Comment>): seq<int> {
    seq(|rs|, j requires 0 <= j < |rs| => rs[j].id)
  }

  /** What `get_comment_replies(id)` returns: each reply to `id`, with its own replies filled in. */
  function Replies(cs: seq<Comment>, id: int, rank: map<int, nat>): seq<Comment>
    requires Ranked(cs, rank)
    decreases Rank(rank, id), |cs| + 1
  {
    RepliesIn(cs, |cs|, id, rank)
  }

  /**
   * The replies to `id` among the first `k` comments: in slice order, each a
   * copy of its row whose parent is `id`.
   */
  function RepliesIn(cs: seq<Comment>, k: nat, id: int, rank: map<int, nat>): (r: seq<Comment>)
    requires Ranked(cs, rank) && k <= |cs|
    ensures Ids(r) == ReplyIds(cs, k, id)
    ensures forall j :: 0 <= j < |r| ==> r[j].parentId == Some(id)
    decreases Rank(rank, id), k
  {
    if k == 0 then []
    else
      var before := RepliesIn(cs, k - 1, id, rank);
      var r := before + if cs[k - 1].parentId == Some(id) then [cs[k - 1].(children := Replies(cs, cs[k - 1].id, rank))] else [];
      assert Ids(r) == Ids(before) + Ids(r[|before|..]);
      r
  }

  /** Each reply is a copy of one of the rows, apart from its `children`. */
  lemma {:induction false} RepliesAreRows(cs: seq<Comment>, k: nat, id: int, rank: map<int, nat>, j: nat)
    requires Ranked(cs, rank) && k <= |cs| && j < |RepliesIn(cs, k, id, rank)|
    ensures exists i :: 0 <= i < k && Strip(RepliesIn(cs, k, id, rank)[j]) == Strip(cs[i])
  {
    var before := RepliesIn(cs, k - 1, id, rank);
    if j < |before| {
      RepliesAreRows(cs, k - 1, id, rank, j);
    } else {
      assert Strip(RepliesIn(cs, k, id, rank)[j]) == Strip(cs[k - 1]);
    }
  }

  /** Each reply carries, as its `children`, the replies built by the same rule for its own id. */
  lemma {:induction false} RepliesNest(cs: seq<Comment>, k: nat, id: int, rank: map<int, nat>, j: nat)
    requires Ranked(cs, rank) && k <= |cs| && j < |RepliesIn(cs, k, id, rank)|
    ensures RepliesIn(cs, k, id, rank)[j].children == Replies(cs, RepliesIn(cs, k, id, rank)[j].id, rank)
  {
    var before := RepliesIn(cs, k - 1, id, rank);
    if j < |before| {
      RepliesNest(cs, k - 1, id, rank, j);
    }
  }

  /** Replies depend on the rows only, not on any `children` already filled in. */
  lemma {:induction false} SameReplies(a: seq<Comment>, b: seq<Comment>, k: nat, id: int, rank: map<int, nat>)
    requires Same(a, b) && Ranked(a, rank) && k <= |a|
    ensures Ranked(b, rank)
    ensures RepliesIn(a, k, id, rank) == RepliesIn(b, k, id, rank)
    decreases Rank(rank, id), k
  {
    SameRanked(a, b, rank);
    if k > 0 {
      SameReplies(a, b, k - 1, id, rank);
      assert Strip(a[k - 1]) == Strip(b[k - 1]);
      if a[k - 1].parentId == Some(id) {
        SameReplies(a, b, |a|, a[k - 1].id, rank);
      }
    }
  }

  /**
   * `cur` is the slice `c0` with some comments' `children` overwritten, each
   * with exactly that comment's replies; rows and order are untouched.
   */
  ghost predicate Filled(cur: seq<Comment>, c0: seq<Comment>, rank: map<int, nat>) {
    Ranked(c0, rank) && |cur| == |c0| &&
    forall j :: 0 <= j < |cur| ==> cur[j] == c0[j] || cur[j] == c0[j].(children := Replies(c0, c0[j].id, rank))
  }

  lemma FilledSame(cur: seq<Comment>, c0: seq<Comment>, rank: map<int, nat>)
    requires Filled(cur, c0, rank)
    ensures Same(cur, c0) && Same(c0, cur) && Ranked(cur, rank)
  {
    SameRanked(c0, cur, rank);
  }

  lemma FilledTrans(after: seq<Comment>, mid: seq<Comment>, c0: seq<Comment>, rank: map<int, nat>)
    requires Filled(mid, c0, rank) && Filled(after, mid, rank)
    ensures Filled(after, c0, rank)
  {
    FilledSame(mid, c0, rank);
    forall j | 0 <= j < |after|
      ensures after[j] == c0[j] || after[j] == c0[j].(children := Replies(c0, c0[j].id, rank))
    {
      assert Strip(c0[j]) == Strip(mid[j]);
      if after[j] != mid[j] {
        SameReplies(mid, c0, |c0|, mid[j].id, rank);
      }
    }
  }

  lemma FilledSet(cur: seq<Comment>, c0: seq<Comment>, rank: map<int, nat>, i: nat)
    requires Filled(cur, c0, rank) && i < |cur|
    ensures Filled(cur[i := cur[i].(children := Replies(c0, c0[i].id, rank))], c0, rank)
    ensures cur[i].(children := Replies(c0, c0[i].id, rank)) == c0[i].(children := Replies(c0, c0[i].id, rank))
  {
    FilledSame(cur, c0, rank);
    assert Strip(cur[i]) == Strip(c0[i]);
  }

  lemma FilledRefl(c0: seq<Comment>, rank: map<int, nat>)
    requires Ranked(c0, rank)
    ensures Filled(c0, c0, rank)
  {
  }

  /**
   * `get_comment_replies`: collects the replies to `id`, filling in each
   * reply's `children` in the slice itself on the way. The slice keeps its
   * rows and order; a comment it changes gets exactly its replies.
   */
  method GetCommentReplies(id: int, comments: array<Comment>, ghost rank: map<int, nat>) returns (children: seq<Comment>)
    requires Ranked(comments[..], rank)
    modifies comments
    ensures Filled(comments[..], old(comments[..]), rank)
    ensures children == Replies(old(comments[..]), id, rank)
    decreases Rank(rank, id)
  {
    ghost var c0 := comments[..];
    FilledRefl(c0, rank);
    children := [];
    var i := 0;
    while i < comments.Length
      invariant 0 <= i <= comments.Length
      invariant Filled(comments[..], c0, rank)
      invariant children == RepliesIn(c0, i, id, rank)
    {
      if comments[i].parentId == Some(id) {
        ghost var mid := comments[..];
        FilledSame(mid, c0, rank);
        assert Strip(c0[i]) == Strip(mid[i]);
        var replies := GetCommentReplies(comments[i].id, comments, rank);
        FilledTrans(comments[..], mid, c0, rank);
        SameReplies(mid, c0, |c0|, c0[i].id, rank);
        FilledSet(comments[..], c0, rank, i);
        comments[i] := comments[i].(children := replies);
        children := children + [comments[i]];
      }
      i := i + 1;
    }
  }

  // ---------------------------------------------------------------------
  // Roots, newest first
  // ---------------------------------------------------------------------

  /** The top-level comments among the first `k`, in slice order. */
  function RootsIn(cs: seq<Comment>, k: nat): (r: seq<Comment>)
    requires k <= |cs|
    ensures forall j :: 0 <= j < |r| ==> r[j].parentId.None? && r[j] in cs[..k]
    ensures forall i :: 0 <= i < k && cs[i].parentId.None? ==> cs[i] in r
  {
    if k == 0 then []
    else RootsIn(cs, k - 1) + if cs[k - 1].parentId.None? then [cs[k - 1]] else []
  }

  /** Each root with its replies filled in. */
  function Trees(roots: seq<Comment>, cs: seq<Comment>, rank: map<int, nat>): seq<Comment>
    requires Ranked(cs, rank)
  {
    seq(|roots|, j requires 0 <= j < |roots| => roots[j].(children := Replies(cs, roots[j].id, rank)))
  }

  /** Ordered by upload time, newest first. */
  ghost predicate NewestFirst(s: seq<Comment>) {
    forall i, j :: 0 <= i < j < |s| ==> s[i].uploadTime >= s[j].uploadTime
  }

  /** The comments uploaded at time `t`, in order. */
  function AtTime(s: seq<Comment>, t: int): seq<Comment> {
    if |s| == 0 then [] else AtTime(s[..|s| - 1], t) + if s[|s| - 1].uploadTime == t then [s[|s| - 1]] else []
  }

  lemma {:induction false} AtTimeAppend(a: seq<Comment>, b: seq<Comment>, t: int)
    ensures AtTime(a + b, t) == AtTime(a, t) + AtTime(b, t)
  {
    if |b| > 0 {
      assert (a + b)[..|a + b| - 1] == a + b[..|b| - 1];
      AtTimeAppend(a, b[..|b| - 1], t);
    } else {
      assert a + b == a;
    }
  }

  /** `x` placed after every comment at least as new as it. */
  function Place(x: Comment, s: seq<Comment>): seq<Comment> {
    if |s| == 0 then [x]
    else if s[0].uploadTime >= x.uploadTime then [s[0]] + Place(x, s[1..])
    else [x] + s
  }

  /** `sort_by_key(|root| Reverse(root.upload_time))`: a stable sort, newest first. */
  function SortNewestFirst(s: seq<Comment>): seq<Comment> {
    if |s| == 0 then [] else Place(s[|s| - 1], SortNewestFirst(s[..|s| - 1]))
  }

  /** A list newest first with an older head holds nothing from time `t` or later. */
  lemma {:induction false} NothingAtTime(s: seq<Comment>, t: int)
    requires NewestFirst(s) && (|s| == 0 || s[0].uploadTime < t)
    ensures AtTime(s, t) == []
  {
    if |s| > 0 {
      assert NewestFirst(s[..|s| - 1]);
      NothingAtTime(s[..|s| - 1], t);
    }
  }

  lemma {:induction false} PlacePerm(x: Comment, s: seq<Comment>)
    ensures multiset(Place(x, s)) == multiset(s) + multiset{x}
  {
    if |s| > 0 && s[0].uploadTime >= x.uploadTime {
      assert s == [s[0]] + s[1..];
      PlacePerm(x, s[1..]);
    }
  }

  lemma {:induction false} PlaceSorted(x: Comment, s: seq<Comment>)
    requires NewestFirst(s)
    ensures NewestFirst(Place(x, s))
  {
    if |s| > 0 && s[0].uploadTime >= x.uploadTime {
      PlaceSorted(x, s[1..]);
      var p := Place(x, s[1..]);
      PlacePerm(x, s[1..]);
      forall j | 0 <= j < |p|
        ensures s[0].uploadTime >= p[j].uploadTime
      {
        assert p[j] in multiset(s[1..]) + multiset{x};
      }
    }
  }

  /** The comments at time `t` in a one-comment list. */
  lemma AtTimeSingle(x: Comment, t: int)
    ensures AtTime([x], t) == if x.uploadTime == t then [x] else []
  {
    assert [x][..0] == [];
  }

  lemma {:induction false} PlaceAtTime(x: Comment, s: seq<Comment>, t: int)
    requires NewestFirst(s)
    ensures AtTime(Place(x, s), t) == AtTime(s, t) + AtTime([x], t)
  {
    if |s| == 0 {
      assert Place(x, s) == [x];
      assert AtTime(s, t) == [];
    } else if s[0].uploadTime >= x.uploadTime {
      var rest := Place(x, s[1..]);
      assert s == [s[0]] + s[1..];
      assert Place(x, s) == [s[0]] + rest;
      PlaceAtTime(x, s[1..], t);
      AtTimeAppend([s[0]], rest, t);
      AtTimeAppend([s[0]], s[1..], t);
    } else {
      assert Place(x, s) == [x] + s;
      AtTimeAppend([x], s, t);
      AtTimeSingle(x, t);
      if x.uploadTime == t {
        NothingAtTime(s, t);
      }
    }
  }

  /** The sort puts the newest first. */
  lemma {:induction false} SortSorted(s: seq<Comment>)
    ensures NewestFirst(SortNewestFirst(s))
  {
    if |s| > 0 {
      SortSorted(s[..|s| - 1]);
      PlaceSorted(s[|s| - 1], SortNewestFirst(s[..|s| - 1]));
    }
  }

  /** The sort keeps exactly the same comments. */
  lemma {:induction false} SortPerm(s: seq<Comment>)
    ensures multiset(SortNewestFirst(s)) == multiset(s)
  {
    if |s| > 0 {
      var init := s[..|s| - 1];
      SortPerm(init);
      PlacePerm(s[|s| - 1], SortNewestFirst(init));
      assert s == init + [s[|s| - 1]];
    }
  }

  /** The sort is stable: comments uploaded at the same time keep their relative order. */
  lemma {:induction false} SortStable(s: seq<Comment>, t: int)
    ensures AtTime(SortNewestFirst(s), t) == AtTime(s, t)
  {
    if |s| > 0 {
      var init := s[..|s| - 1];
      SortStable(init, t);
      SortSorted(init);
      PlaceAtTime(s[|s| - 1], SortNewestFirst(init), t);
      AtTimeSingle(s[|s| - 1], t);
    }
  }

  /** The first loop of `get_comments`: the top-level comments, copied in slice order. */
  method TopLevel(comments: array<Comment>) returns (roots: seq<Comment>)
    ensures roots == RootsIn(comments[..], comments.Length)
  {
    roots := [];
    for k := 0 to comments.Length
      invariant roots == RootsIn(comments[..], k)
    {
      if comments[k].parentId.None? {
        roots := roots + [comments[k]];
      }
    }
  }

  /** The second loop of `get_comments`: each root gets its replies, collected from the slice. */
  method FillRoots(roots: seq<Comment>, comments: array<Comment>, ghost rank: map<int, nat>) returns (trees: seq<Comment>)
    requires Ranked(comments[..], rank)
    modifies comments
    ensures Filled(comments[..], old(comments[..]), rank)
    ensures trees == Trees(roots, old(comments[..]), rank)
  {
    ghost var c0 := comments[..];
    FilledRefl(c0, rank);
    trees := roots;
    for k := 0 to |roots|
      invariant |trees| == |roots|
      invariant Filled(comments[..], c0, rank)
      invariant forall j :: 0 <= j < k ==> trees[j] == roots[j].(children := Replies(c0, roots[j].id, rank))
      invariant forall j :: k <= j < |roots| ==> trees[j] == roots[j]
    {
      ghost var mid := comments[..];
      FilledSame(mid, c0, rank);
      var replies := GetCommentReplies(trees[k].id, comments, rank);
      FilledTrans(comments[..], mid, c0, rank);
      SameReplies(mid, c0, |c0|, roots[k].id, rank);
      trees := trees[k := trees[k].(children := replies)];
    }
  }

  /**
   * `get_comments` after the query: the top-level comments, each with its
   * replies filled in, newest first.
   */
  method GetComments(comments: array<Comment>, ghost rank: map<int, nat>) returns (roots: seq<Comment>)
    requires Ranked(comments[..], rank)
    modifies comments
    ensures Filled(comments[..], old(comments[..]), rank)
    ensures roots == SortNewestFirst(Trees(RootsIn(old(comments[..]), comments.Length), old(comments[..]), rank))
  {
    roots := TopLevel(comments);
    roots := FillRoots(roots, comments, rank);
    roots := SortNewestFirst(roots);
  }

  /** Every tree `get_comments` answers is a top-level comment from the slice, carrying its replies. */
  lemma ThreadsAreRoots(cs: seq<Comment>, rank: map<int, nat>, x: Comment)
    requires Ranked(cs, rank) && x in SortNewestFirst(Trees(RootsIn(cs, |cs|), cs, rank))
    ensures x.parentId.None? && x.children == Replies(cs, x.id, rank)
    ensures exists i :: 0 <= i < |cs| && Strip(x) == Strip(cs[i])
  {
    var roots := RootsIn(cs, |cs|);
    var trees := Trees(roots, cs, rank);
    SortPerm(trees);
    assert x in multiset(trees);
    var j :| 0 <= j < |trees| && trees[j] == x;
    assert roots[j] in cs[..|cs|];
    var i :| 0 <= i < |cs| && cs[..|cs|][i] == roots[j];
    assert Strip(x) == Strip(cs[i]);
  }

  /** Every top-level comment of the slice is answered, with its replies. */
  lemma ThreadsComplete(cs: seq<Comment>, rank: map<int, nat>, i: nat)
    requires Ranked(cs, rank) && i < |cs| && cs[i].parentId.None?
    ensures cs[i].(children := Replies(cs, cs[i].id, rank)) in SortNewestFirst(Trees(RootsIn(cs, |cs|), cs, rank))
  {
    var roots := RootsIn(cs, |cs|);
    var trees := Trees(roots, cs, rank);
    SortPerm(trees);
    var j :| 0 <= j < |roots| && roots[j] == cs[i];
    assert trees[j] == cs[i].(children := Replies(cs, cs[i].id, rank));
    assert trees[j] in multiset(SortNewestFirst(trees));
  }
}
