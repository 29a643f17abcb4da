/** The reply forest of one forum topic: replies nested to any depth, each
    node's children kept in arrival order. A node is addressed by a path of
    child indices; the pre-order walk that the controller's recursive searches
    perform visits a node before its children and the children before the
    node's next sibling. */
module ReplyTree {
  import opened Outcome

  /** The author snapshot stored with a post (`user: {name, profileImage}`). */
  datatype Author = Author(name: string, profileImage: string)

  datatype Reply = Reply(
    id: string,
    content: string,
    author: Author,
    anonymous: bool,
    voteScore: int,
    createdAt: string,
    replies: seq<Reply>)

  /** A node's own fields, its nested replies left out. */
  function Header(r: Reply): Reply
  {
    r.(replies := [])
  }

  /** The node found by following the child indices of `p` from the top-level
      list `forest`; None when `p` is empty or leaves the forest. */
  function NodeAt(forest: seq<Reply>, p: seq<nat>): Option<Reply>
    decreases |p|
  {
    if p == [] || p[0] >= |forest| then None
    else if |p| == 1 then Some(forest[p[0]])
    else NodeAt(forest[p[0]].replies, p[1..])
  }

  predicate IsPrefix(a: seq<nat>, b: seq<nat>)
  {
    |a| <= |b| && b[..|a|] == a
  }

  /** Node `q` is visited strictly before node `p` in pre-order: it is an
      ancestor of `p`, or it lies in an earlier sibling subtree. */
  predicate Before(q: seq<nat>, p: seq<nat>)
    decreases |q|
  {
    |q| > 0 && |p| > 0 &&
    (q[0] < p[0] || (q[0] == p[0] && if |q| == 1 then |p| > 1 else Before(q[1..], p[1..])))
  }

  ghost predicate HasId(forest: seq<Reply>, id: string)
  {
    exists p :: NodeAt(forest, p).Some? && NodeAt(forest, p).value.id == id
  }

  /** `p` is the first node of the pre-order walk whose id is `id`. */
  ghost predicate IsFirstMatch(forest: seq<Reply>, id: string, p: seq<nat>)
  {
    NodeAt(forest, p).Some? && NodeAt(forest, p).value.id == id &&
    forall q :: Before(q, p) && NodeAt(forest, q).Some? ==> NodeAt(forest, q).value.id != id
  }

  /** Total number of replies in a forest, nested ones included. */
  function CountAll(forest: seq<Reply>): nat
    decreases forest
  {
    if forest == [] then 0 else 1 + CountAll(forest[0].replies) + CountAll(forest[1..])
  }

  // ---------------------------------------------------------------------------
  // Paths

  lemma NodeAtChild(forest: seq<Reply>, i: nat, s: seq<nat>)
    requires i < |forest| && s != []
    ensures NodeAt(forest, [i] + s) == NodeAt(forest[i].replies, s)
  {
    assert ([i] + s)[1..] == s;
  }

  lemma NodeAtTail(forest: seq<Reply>, i: nat, s: seq<nat>)
    requires forest != []
    ensures NodeAt(forest, [i + 1] + s) == NodeAt(forest[1..], [i] + s)
  {
    assert ([i + 1] + s)[1..] == s == ([i] + s)[1..];
  }

  /** Following `p` and then `s` is following `p + s`. */
  lemma {:induction false} NodeAtExtend(forest: seq<Reply>, p: seq<nat>, s: seq<nat>)
    requires NodeAt(forest, p).Some? && s != []
    ensures NodeAt(forest, p + s) == NodeAt(NodeAt(forest, p).value.replies, s)
    decreases |p|
  {
    var i := p[0];
    if |p| == 1 {
      NodeAtChild(forest, i, s);
      assert p + s == [i] + s;
    } else {
      NodeAtExtend(forest[i].replies, p[1..], s);
      assert (p + s)[1..] == p[1..] + s;
    }
  }

  /** Appending a child to a list keeps the nodes below the old children and
      adds only the nodes below the new last child. */
  lemma NodeAtAppend(xs: seq<Reply>, y: Reply, s: seq<nat>)
    requires s != []
    ensures s[0] < |xs| ==> NodeAt(xs + [y], s) == NodeAt(xs, s)
    ensures s[0] >= |xs| ==> NodeAt(xs, s).None?
  {
    if s[0] < |xs| {
      assert (xs + [y])[s[0]] == xs[s[0]];
    }
  }

  // ---------------------------------------------------------------------------
  // The pre-order search

  /** The path of the first pre-order node whose id is `id`. */
  function FirstMatch(forest: seq<Reply>, id: string): (r: Option<seq<nat>>)
    ensures r.Some? ==> NodeAt(forest, r.value).Some? && NodeAt(forest, r.value).value.id == id
    decreases forest
  {
    if forest == [] then None
    else if forest[0].id == id then Some([0])
    else match FirstMatch(forest[0].replies, id)
      case Some(p) =>
        NodeAtChild(forest, 0, p);
        Some([0] + p)
      case None =>
        match FirstMatch(forest[1..], id)
        case Some(p) =>
          NodeAtTail(forest, p[0], p[1..]);
          assert [p[0]] + p[1..] == p;
          Some([p[0] + 1] + p[1..])
        case None => None
  }

  /** A non-empty path either stops at the first top-level reply, descends
      into it, or addresses a node of the remaining top-level replies. */
  lemma NodeAtSplit(forest: seq<Reply>, q: seq<nat>)
    requires forest != [] && q != []
    ensures q[0] == 0 && |q| == 1 ==> NodeAt(forest, q) == Some(forest[0])
    ensures q[0] == 0 && |q| > 1 ==> NodeAt(forest, q) == NodeAt(forest[0].replies, q[1..])
    ensures q[0] > 0 ==> NodeAt(forest, q) == NodeAt(forest[1..], [q[0] - 1] + q[1..])
  {
    if q[0] > 0 {
      NodeAtTail(forest, q[0] - 1, q[1..]);
      assert [q[0] - 1 + 1] + q[1..] == q;
    }
  }

  /** When the search reports no match, no node carries the id. */
  lemma {:induction false} FirstMatchNone(forest: seq<Reply>, id: string)
    requires FirstMatch(forest, id).None?
    ensures !HasId(forest, id)
    decreases forest
  {
    if forest != [] {
      FirstMatchNone(forest[0].replies, id);
      FirstMatchNone(forest[1..], id);
      forall q | NodeAt(forest, q).Some?
        ensures NodeAt(forest, q).value.id != id
      {
        NodeAtSplit(forest, q);
      }
    }
  }

  /** When the search reports a path, no node earlier in pre-order carries the id. */
  lemma {:induction false} FirstMatchFirst(forest: seq<Reply>, id: string)
    requires FirstMatch(forest, id).Some?
    ensures IsFirstMatch(forest, id, FirstMatch(forest, id).value)
    decreases forest
  {
    var c := forest[0];
    if c.id != id {
      if FirstMatch(c.replies, id).Some? {
        FirstMatchFirst(c.replies, id);
        var p := FirstMatch(c.replies, id).value;
        var r := [0] + p;
        assert r[1..] == p;
        forall q | Before(q, r) && NodeAt(forest, q).Some?
          ensures NodeAt(forest, q).value.id != id
        {
          NodeAtSplit(forest, q);
        }
      } else {
        FirstMatchNone(c.replies, id);
        FirstMatchFirst(forest[1..], id);
        var p := FirstMatch(forest[1..], id).value;
        var r := [p[0] + 1] + p[1..];
        assert r[1..] == p[1..];
        forall q | Before(q, r) && NodeAt(forest, q).Some?
          ensures NodeAt(forest, q).value.id != id
        {
          NodeAtSplit(forest, q);
          if q[0] > 0 {
            var q' := [q[0] - 1] + q[1..];
            assert q'[1..] == q[1..];
            assert Before(q', p);
          }
        }
      }
    }
  }

  /** FirstMatch finds exactly the first pre-order match, and reports none
      exactly when no node of the forest carries the id. */
  lemma FirstMatchCorrect(forest: seq<Reply>, id: string)
    ensures FirstMatch(forest, id).Some? ==> IsFirstMatch(forest, id, FirstMatch(forest, id).value)
    ensures FirstMatch(forest, id).None? <==> !HasId(forest, id)
  {
    if FirstMatch(forest, id).Some? {
      FirstMatchFirst(forest, id);
    } else {
      FirstMatchNone(forest, id);
    }
  }

  // ---------------------------------------------------------------------------
  // Updating one node

  /** The forest with node `p` replaced by `g` of it. */
  function UpdateAt(forest: seq<Reply>, p: seq<nat>, g: Reply -> Reply): (r: seq<Reply>)
    requires NodeAt(forest, p).Some?
    ensures |r| == |forest|
    decreases |p|
  {
    var i := p[0];
    if |p| == 1 then forest[i := g(forest[i])]
    else forest[i := forest[i].(replies := UpdateAt(forest[i].replies, p[1..], g))]
  }

  lemma {:induction false} UpdateAtTarget(forest: seq<Reply>, p: seq<nat>, g: Reply -> Reply)
    requires NodeAt(forest, p).Some?
    ensures NodeAt(UpdateAt(forest, p, g), p) == Some(g(NodeAt(forest, p).value))
    decreases |p|
  {
    if |p| > 1 {
      UpdateAtTarget(forest[p[0]].replies, p[1..], g);
    }
  }

  /** Ancestors of the updated node keep their own fields. */
  lemma {:induction false} UpdateAtAncestor(forest: seq<Reply>, p: seq<nat>, g: Reply -> Reply, q: seq<nat>)
    requires NodeAt(forest, p).Some?
    requires q != [] && IsPrefix(q, p) && q != p
    ensures NodeAt(forest, q).Some? && NodeAt(UpdateAt(forest, p, g), q).Some?
    ensures Header(NodeAt(UpdateAt(forest, p, g), q).value) == Header(NodeAt(forest, q).value)
    decreases |p|
  {
    PrefixCons(q, p);
    if |q| > 1 {
      UpdateAtAncestor(forest[p[0]].replies, p[1..], g, q[1..]);
    }
  }

  lemma PrefixCons(a: seq<nat>, b: seq<nat>)
    requires a != [] && b != []
    ensures IsPrefix(a, b) <==> a[0] == b[0] && IsPrefix(a[1..], b[1..])
  {
    if a[0] == b[0] && IsPrefix(a[1..], b[1..]) {
      assert b[..|a|] == [b[0]] + b[1..][..|a| - 1];
      assert a == [a[0]] + a[1..];
    }
    if IsPrefix(a, b) {
      assert b[1..][..|a| - 1] == b[..|a|][1..];
    }
  }

  /** Nodes that are neither ancestors nor descendants of the updated node are
      unchanged, subtrees included. */
  lemma {:induction false} UpdateAtOutside(forest: seq<Reply>, p: seq<nat>, g: Reply -> Reply, q: seq<nat>)
    requires NodeAt(forest, p).Some?
    requires !IsPrefix(q, p) && !IsPrefix(p, q)
    ensures NodeAt(UpdateAt(forest, p, g), q) == NodeAt(forest, q)
    decreases |p|
  {
    if q != [] && q[0] == p[0] {
      PrefixCons(q, p);
      PrefixCons(p, q);
      UpdateAtOutside(forest[p[0]].replies, p[1..], g, q[1..]);
    }
  }

  /** Below the updated node the forest is the updated node's own subtree. */
  lemma UpdateAtInside(forest: seq<Reply>, p: seq<nat>, g: Reply -> Reply, s: seq<nat>)
    requires NodeAt(forest, p).Some? && s != []
    ensures NodeAt(UpdateAt(forest, p, g), p + s) == NodeAt(g(NodeAt(forest, p).value).replies, s)
  {
    UpdateAtTarget(forest, p, g);
    NodeAtExtend(UpdateAt(forest, p, g), p, s);
  }

  lemma UpdateAtShift(forest: seq<Reply>, p: seq<nat>, g: Reply -> Reply)
    requires forest != [] && NodeAt(forest[1..], p).Some?
    ensures NodeAt(forest, [p[0] + 1] + p[1..]) == NodeAt(forest[1..], p)
    ensures UpdateAt(forest, [p[0] + 1] + p[1..], g) == [forest[0]] + UpdateAt(forest[1..], p, g)
  {
    NodeAtTail(forest, p[0], p[1..]);
    assert [p[0]] + p[1..] == p;
    var r := [p[0] + 1] + p[1..];
    assert r[1..] == p[1..];
  }

  // ---------------------------------------------------------------------------
  // The controller's recursive search-and-mutate

  /** Walks `forest` in pre-order and applies `g` to the first node whose id is
      `id`, stopping there; returns the new forest and the updated node, or the
      forest untouched and None when no node matches. This is the shape shared
      by the controller's three recursive closures. */
  function UpdateFirst(forest: seq<Reply>, id: string, g: Reply -> Reply): (seq<Reply>, Option<Reply>)
    decreases forest
  {
    if forest == [] then (forest, None)
    else
      var c := forest[0];
      if c.id == id then
        var c' := g(c);
        ([c'] + forest[1..], Some(c'))
      else
        var (sub, hit) := UpdateFirst(c.replies, id, g);
        if hit.Some? then ([c.(replies := sub)] + forest[1..], hit)
        else
          var (rest, hit') := UpdateFirst(forest[1..], id, g);
          ([c] + rest, hit')
  }

  /** The one-pass search-and-mutate is the same as finding the first match and
      then updating that node. */
  lemma {:induction false} UpdateFirstIsUpdateAtFirstMatch(forest: seq<Reply>, id: string, g: Reply -> Reply)
    ensures UpdateFirst(forest, id, g) ==
      match FirstMatch(forest, id)
      case None => (forest, None)
      case Some(p) => (UpdateAt(forest, p, g), Some(g(NodeAt(forest, p).value)))
    decreases forest
  {
    if forest != [] {
      var c := forest[0];
      if c.id == id {
        assert [g(c)] + forest[1..] == forest[0 := g(c)];
      } else {
        UpdateFirstIsUpdateAtFirstMatch(c.replies, id, g);
        match FirstMatch(c.replies, id)
        case Some(p) =>
          var r := [0] + p;
          assert r[1..] == p;
          NodeAtChild(forest, 0, p);
          var c' := c.(replies := UpdateAt(c.replies, p, g));
          assert [c'] + forest[1..] == forest[0 := c'];
        case None =>
          UpdateFirstIsUpdateAtFirstMatch(forest[1..], id, g);
          match FirstMatch(forest[1..], id)
          case Some(p) =>
            UpdateAtShift(forest, p, g);
          case None =>
            assert [c] + forest[1..] == forest;
      }
    }
  }

  // ---------------------------------------------------------------------------
  // Adding a nested reply and voting on a reply

  function AppendChild(child: Reply): Reply -> Reply
  {
    (r: Reply) => r.(replies := r.replies + [child])
  }

  function AddToScore(delta: int): Reply -> Reply
  {
    (r: Reply) => r.(voteScore := r.voteScore + delta)
  }

  /** `findParentAndAddReply`: append `child` to the replies of the first
      pre-order node whose id is `parentId`; `found` says whether there was one. */
  function InsertUnder(forest: seq<Reply>, parentId: string, child: Reply): (seq<Reply>, bool)
  {
    var (f, hit) := UpdateFirst(forest, parentId, AppendChild(child));
    (f, hit.Some?)
  }

  /** `findReplyAndUpvote` / `findReplyAndDownvote`: add `delta` to the score of
      the first pre-order node whose id is `replyId`; the new score, or None when
      no node matches. */
  function Vote(forest: seq<Reply>, replyId: string, delta: int): (seq<Reply>, Option<int>)
  {
    var (f, hit) := UpdateFirst(forest, replyId, AddToScore(delta));
    (f, if hit.Some? then Some(hit.value.voteScore) else None)
  }

  /** InsertUnder puts `child` last among the children of the first pre-order
      node with the parent id, keeps every other node as it was, and adds no
      node outside the new child's subtree; with no such node nothing changes. */
  lemma InsertUnderSpec(forest: seq<Reply>, parentId: string, child: Reply)
    ensures InsertUnder(forest, parentId, child).1 <==> HasId(forest, parentId)
    ensures InsertUnder(forest, parentId, child).1 == FirstMatch(forest, parentId).Some?
    ensures !InsertUnder(forest, parentId, child).1 ==> InsertUnder(forest, parentId, child).0 == forest
    ensures FirstMatch(forest, parentId).Some? ==>
      var f := InsertUnder(forest, parentId, child).0;
      var p := FirstMatch(forest, parentId).value;
      var parent := NodeAt(forest, p).value;
      var slot := p + [|parent.replies|];
      IsFirstMatch(forest, parentId, p)
      && NodeAt(f, p) == Some(parent.(replies := parent.replies + [child]))
      && NodeAt(f, slot) == Some(child)
      && (forall q :: NodeAt(forest, q).Some? ==>
            NodeAt(f, q).Some? && Header(NodeAt(f, q).value) == Header(NodeAt(forest, q).value))
      && (forall q :: NodeAt(f, q).Some? && NodeAt(forest, q).None? ==> IsPrefix(slot, q))
  {
    var g := AppendChild(child);
    UpdateFirstIsUpdateAtFirstMatch(forest, parentId, g);
    FirstMatchCorrect(forest, parentId);
    if FirstMatch(forest, parentId).Some? {
      var p := FirstMatch(forest, parentId).value;
      var f := UpdateAt(forest, p, g);
      var parent := NodeAt(forest, p).value;
      var n := |parent.replies|;
      var slot := p + [n];
      UpdateAtTarget(forest, p, g);
      UpdateAtInside(forest, p, g, [n]);
      assert NodeAt(parent.replies + [child], [n]) == Some(child);
      forall q | NodeAt(forest, q).Some? || NodeAt(f, q).Some?
        ensures NodeAt(forest, q).Some? ==>
          NodeAt(f, q).Some? && Header(NodeAt(f, q).value) == Header(NodeAt(forest, q).value)
        ensures NodeAt(forest, q).None? ==> IsPrefix(slot, q)
      {
        if q == p {
        } else if IsPrefix(q, p) {
          UpdateAtAncestor(forest, p, g, q);
        } else if IsPrefix(p, q) {
          var s := q[|p|..];
          assert q == p + s;
          UpdateAtInside(forest, p, g, s);
          NodeAtExtend(forest, p, s);
          NodeAtAppend(parent.replies, child, s);
          if s[0] >= n {
            assert s[0] == n;
            assert q[..|slot|] == slot;
          }
        } else {
          UpdateAtOutside(forest, p, g, q);
        }
      }
    }
  }

  /** Vote changes the score of exactly the first pre-order node with the id by
      `delta` and returns that node's new score; the shape of the forest and
      every other field of every node stay the same. With no such node nothing
      changes. */
  lemma VoteSpec(forest: seq<Reply>, replyId: string, delta: int)
    ensures Vote(forest, replyId, delta).1.Some? <==> HasId(forest, replyId)
    ensures Vote(forest, replyId, delta).1.Some? == FirstMatch(forest, replyId).Some?
    ensures Vote(forest, replyId, delta).1.None? ==> Vote(forest, replyId, delta).0 == forest
    ensures FirstMatch(forest, replyId).Some? ==>
      var f := Vote(forest, replyId, delta).0;
      var p := FirstMatch(forest, replyId).value;
      var target := NodeAt(forest, p).value;
      IsFirstMatch(forest, replyId, p)
      && Vote(forest, replyId, delta).1.value == target.voteScore + delta
      && (forall q :: NodeAt(f, q).Some? <==> NodeAt(forest, q).Some?)
      && (forall q :: NodeAt(forest, q).Some? ==>
            Header(NodeAt(f, q).value) ==
              if q == p then Header(target).(voteScore := target.voteScore + delta)
              else Header(NodeAt(forest, q).value))
  {
    var g := AddToScore(delta);
    UpdateFirstIsUpdateAtFirstMatch(forest, replyId, g);
    FirstMatchCorrect(forest, replyId);
    if FirstMatch(forest, replyId).Some? {
      var p := FirstMatch(forest, replyId).value;
      var f := UpdateAt(forest, p, g);
      var target := NodeAt(forest, p).value;
      UpdateAtTarget(forest, p, g);
      forall q
        ensures NodeAt(f, q).Some? <==> NodeAt(forest, q).Some?
        ensures NodeAt(forest, q).Some? ==>
          Header(NodeAt(f, q).value) ==
            if q == p then Header(target).(voteScore := target.voteScore + delta)
            else Header(NodeAt(forest, q).value)
      {
        if q == p {
        } else if IsPrefix(q, p) {
          if q != [] {
            UpdateAtAncestor(forest, p, g, q);
          }
        } else if IsPrefix(p, q) {
          var s := q[|p|..];
          assert q == p + s;
          UpdateAtInside(forest, p, g, s);
          NodeAtExtend(forest, p, s);
        } else {
          UpdateAtOutside(forest, p, g, q);
        }
      }
    }
  }

  /** A score change keeps the changed node's id, so the search finds it again. */
  lemma ScoreChangeKeepsMatch(forest: seq<Reply>, id: string, delta: int)
    ensures UpdateFirst(forest, id, AddToScore(delta)).1.Some? ==
            UpdateFirst(UpdateFirst(forest, id, AddToScore(delta)).0, id, AddToScore(-delta)).1.Some?
  {
    var g := AddToScore(delta);
    var f := UpdateFirst(forest, id, g).0;
    UpdateFirstIsUpdateAtFirstMatch(forest, id, g);
    UpdateFirstIsUpdateAtFirstMatch(f, id, AddToScore(-delta));
    FirstMatchCorrect(f, id);
    if FirstMatch(forest, id).Some? {
      UpdateAtTarget(forest, FirstMatch(forest, id).value, g);
    }
  }

  /** Voting on a reply and then voting it back by the opposite amount
      restores the forest. */
  lemma {:induction false} VoteUndo(forest: seq<Reply>, id: string, delta: int)
    ensures Vote(Vote(forest, id, delta).0, id, -delta).0 == forest
    ensures Vote(Vote(forest, id, delta).0, id, -delta).1.Some? == Vote(forest, id, delta).1.Some?
    decreases forest
  {
    ScoreChangeKeepsMatch(forest, id, delta);
    if forest != [] {
      var c := forest[0];
      var up, down := AddToScore(delta), AddToScore(-delta);
      if c.id != id {
        VoteUndo(c.replies, id, delta);
        UpdateFirstIsUpdateAtFirstMatch(c.replies, id, up);
        UpdateFirstIsUpdateAtFirstMatch(c.replies, id, down);
        var (sub, hit) := UpdateFirst(c.replies, id, up);
        if hit.Some? {
          var f1 := [c.(replies := sub)] + forest[1..];
          assert f1[1..] == forest[1..];
          assert [c] + forest[1..] == forest;
        } else {
          VoteUndo(forest[1..], id, delta);
          var rest := UpdateFirst(forest[1..], id, up).0;
          assert ([c] + rest)[1..] == rest;
          assert [c] + forest[1..] == forest;
        }
      } else {
        assert [c] + forest[1..] == forest;
      }
    }
  }
}
