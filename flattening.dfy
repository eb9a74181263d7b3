/**
 * What one call of the comment walker's `display_element` does, as a
 * function of the children index it starts from: the visits it emits, in
 * order, and the index it leaves behind. The walker's method is proved equal
 * to `Display`; the lemmas here say what `Display` means.
 */
module Flattening {
  import opened CommentTree

  /** One emission of the base step: a comment and the depth it was displayed at. */
  datatype Visit = Visit(comment: Comment, depth: int)

  /** The effect of a call: the index afterwards and the visits emitted. */
  datatype Outcome = Outcome(index: Index, emitted: seq<Visit>)

  /**
   * The condition of the orphan-preventing branch, as written: the next level
   * would reach the cap and the element's id still has an entry. There is no
   * guard for `maxDepth == 0`.
   */
  predicate Flattens(idx: Index, c: Comment, maxDepth: int, depth: int): (b: bool)
    ensures maxDepth == 0 && depth >= 0 ==> (b <==> c.id in idx)
    ensures c.id !in idx ==> !b
  {
    maxDepth <= depth + 1 && c.id in idx
  }

  /** Every comment of `s`, in order, displayed at `depth`. */
  function AtDepth(s: seq<Comment>, depth: int): (r: seq<Visit>)
    ensures |r| == |s|
  {
    seq(|s|, i requires 0 <= i < |s| => Visit(s[i], depth))
  }

  lemma AtDepthConcat(a: seq<Comment>, b: seq<Comment>, depth: int)
    ensures AtDepth(a + b, depth) == AtDepth(a, depth) + AtDepth(b, depth)
  {
  }

  /**
   * The element is emitted at `depth`; if it flattens, each child of its
   * entry is displayed in turn at the same `depth`, and then its entry is
   * removed.
   */
  function Display(idx: Index, c: Comment, maxDepth: int, depth: int, rank: Rank): (r: Outcome)
    requires Ranked(idx, rank)
    ensures SubIndex(r.index, idx)
    decreases RankOf(rank, c.id), 1, 0
  {
    if Flattens(idx, c, maxDepth, depth) then
      var kids := DisplayAll(idx, idx[c.id], maxDepth, depth, rank, RankOf(rank, c.id));
      Outcome(kids.index - {c.id}, [Visit(c, depth)] + kids.emitted)
    else
      Outcome(idx, [Visit(c, depth)])
  }

  /**
   * Displaying the comments `cs` one after another, each call seeing the
   * index its predecessors left.
   */
  function DisplayAll(idx: Index, cs: seq<Comment>, maxDepth: int, depth: int, rank: Rank, bound: nat): (r: Outcome)
    requires Ranked(idx, rank)
    requires forall x :: x in cs ==> RankOf(rank, x.id) < bound
    ensures SubIndex(r.index, idx)
    decreases bound, 0, |cs|
  {
    if cs == [] then Outcome(idx, [])
    else
      var init := DisplayAll(idx, cs[..|cs| - 1], maxDepth, depth, rank, bound);
      RankedSubIndex(init.index, idx, rank);
      var last := Display(init.index, cs[|cs| - 1], maxDepth, depth, rank);
      Outcome(last.index, init.emitted + last.emitted)
  }

  /**
   * Displaying one more comment of a list continues from the index the
   * earlier ones left and appends what it emits.
   */
  lemma DisplayAllStep(idx: Index, cs: seq<Comment>, i: nat, maxDepth: int, depth: int, rank: Rank, bound: nat)
    requires Ranked(idx, rank)
    requires forall x :: x in cs ==> RankOf(rank, x.id) < bound
    requires i < |cs|
    ensures var done := DisplayAll(idx, cs[..i], maxDepth, depth, rank, bound);
            var next := Display(done.index, cs[i], maxDepth, depth, rank);
            DisplayAll(idx, cs[..i + 1], maxDepth, depth, rank, bound) == Outcome(next.index, done.emitted + next.emitted)
  {
    assert cs[..i + 1][..i] == cs[..i];
  }

  /**
   * A call emits its element first, and every visit it emits is at the
   * element's own depth: flattened descendants are never displayed deeper.
   * After a flattening call the element's id has no entry left.
   */
  lemma {:induction false} DisplayEmitsAtDepth(idx: Index, c: Comment, maxDepth: int, depth: int, rank: Rank)
    requires Ranked(idx, rank)
    ensures var r := Display(idx, c, maxDepth, depth, rank);
            |r.emitted| >= 1 && r.emitted[0] == Visit(c, depth) &&
            (forall v :: v in r.emitted ==> v.depth == depth) &&
            (Flattens(idx, c, maxDepth, depth) ==> c.id !in r.index)
    decreases RankOf(rank, c.id), 1, 0
  {
    if Flattens(idx, c, maxDepth, depth) {
      DisplayAllEmitsAtDepth(idx, idx[c.id], maxDepth, depth, rank, RankOf(rank, c.id));
    }
  }

  lemma {:induction false} DisplayAllEmitsAtDepth(idx: Index, cs: seq<Comment>, maxDepth: int, depth: int, rank: Rank, bound: nat)
    requires Ranked(idx, rank)
    requires forall x :: x in cs ==> RankOf(rank, x.id) < bound
    ensures var r := DisplayAll(idx, cs, maxDepth, depth, rank, bound);
            |r.emitted| >= |cs| && (forall v :: v in r.emitted ==> v.depth == depth) &&
            forall x :: x in cs ==> Visit(x, depth) in r.emitted
    decreases bound, 0, |cs|
  {
    if cs != [] {
      var front, last := cs[..|cs| - 1], cs[|cs| - 1];
      var init := DisplayAll(idx, front, maxDepth, depth, rank, bound);
      DisplayAllEmitsAtDepth(idx, front, maxDepth, depth, rank, bound);
      RankedSubIndex(init.index, idx, rank);
      DisplayEmitsAtDepth(init.index, last, maxDepth, depth, rank);
      assert cs == front + [last];
      assert forall x :: x in cs ==> x in front || x == last;
    }
  }

  /**
   * Outside the flattening branch a call emits only its element and leaves
   * the index alone, and a call that emits only its element and leaves the
   * index alone did not flatten.
   */
  lemma DisplayOnlyEmitsUnlessFlattening(idx: Index, c: Comment, maxDepth: int, depth: int, rank: Rank)
    requires Ranked(idx, rank)
    ensures Display(idx, c, maxDepth, depth, rank) == Outcome(idx, [Visit(c, depth)])
            <==> !Flattens(idx, c, maxDepth, depth)
  {
  }

  /**
   * With `maxDepth == 0` ("unlimited") and a non-negative depth the branch is
   * taken exactly when the element's entry is still in the index: unlimited
   * depth never flattens only if the entry was consumed before this point.
   */
  lemma DisplayUnlimitedDepth(idx: Index, c: Comment, depth: int, rank: Rank)
    requires Ranked(idx, rank) && depth >= 0
    ensures Display(idx, c, 0, depth, rank).index == idx <==> c.id !in idx
  {
  }

  /**
   * A flattening call removes from the index exactly the ids of the subtree
   * below the element (those that had entries) and leaves every other entry,
   * with its child list, as it was. Only acyclicity is assumed: a subtree
   * reached twice is expanded once.
   */
  lemma {:induction false} DisplayConsumesSubtree(idx: Index, c: Comment, maxDepth: int, depth: int, rank: Rank)
    requires Ranked(idx, rank)
    requires maxDepth <= depth + 1
    ensures Display(idx, c, maxDepth, depth, rank).index == idx - IdsOf(PreOrder(idx, c, rank))
    decreases RankOf(rank, c.id), 1, 0
  {
    if c.id in idx {
      var kids := idx[c.id];
      DisplayAllConsumesSubtrees(idx, kids, maxDepth, depth, rank, RankOf(rank, c.id));
      IdsOfConcat([c], PreOrderAll(idx, kids, rank, RankOf(rank, c.id)));
    } else {
      IdsOfConcat([c], []);
      assert idx - {c.id} == idx;
    }
  }

  lemma {:induction false} DisplayAllConsumesSubtrees(idx: Index, cs: seq<Comment>, maxDepth: int, depth: int, rank: Rank, bound: nat)
    requires Ranked(idx, rank)
    requires forall x :: x in cs ==> RankOf(rank, x.id) < bound
    requires maxDepth <= depth + 1
    ensures DisplayAll(idx, cs, maxDepth, depth, rank, bound).index == idx - IdsOf(PreOrderAll(idx, cs, rank, bound))
    decreases bound, 0, |cs|
  {
    if cs == [] {
      assert idx - {} == idx;
    } else {
      var init, last := cs[..|cs| - 1], cs[|cs| - 1];
      DisplayAllConsumesSubtrees(idx, init, maxDepth, depth, rank, bound);
      var removed := IdsOf(PreOrderAll(idx, init, rank, bound));
      PreOrderAllExpands(idx, init, rank, bound);
      SubtreeAfterRemoval(idx, removed, last, rank);
      var rest := idx - removed;
      DisplayConsumesSubtree(rest, last, maxDepth, depth, rank);
      SubtreeShrinks(rest, idx, last, rank);
      IdsOfConcat(PreOrderAll(idx, init, rank, bound), PreOrder(idx, last, rank));
      var before := IdsOf(PreOrder(idx, last, rank));
      var after := IdsOf(PreOrder(rest, last, rank));
      assert after <= before <= after + removed;
      assert rest - after == idx - (removed + before);
    }
  }

  /** Every comment whose id has an entry occurs at most once (by id) in `s`. */
  ghost predicate ExpandedOnce(idx: Index, s: seq<Comment>)
  {
    forall i, j :: 0 <= i < j < |s| && s[i].id in idx ==> s[i].id != s[j].id
  }

  lemma ExpandedOnceSplit(idx: Index, a: seq<Comment>, b: seq<Comment>)
    requires ExpandedOnce(idx, a + b)
    ensures ExpandedOnce(idx, a) && ExpandedOnce(idx, b)
    ensures forall y :: y in b && y.id in idx ==> y.id !in IdsOf(a)
  {
    forall i, j | 0 <= i < j < |a| && a[i].id in idx
      ensures a[i].id != a[j].id
    {
      assert (a + b)[i] == a[i] && (a + b)[j] == a[j];
    }
    forall i, j | 0 <= i < |a| && 0 <= j < |b| && b[j].id in idx
      ensures a[i].id != b[j].id
    {
      assert (a + b)[i] == a[i] && (a + b)[|a| + j] == b[j];
    }
    forall i, j | 0 <= i < j < |b| && b[i].id in idx
      ensures b[i].id != b[j].id
    {
      assert (a + b)[|a| + i] == b[i] && (a + b)[|a| + j] == b[j];
    }
  }

  /**
   * When the cap is reached and no subtree is reachable twice, a call emits
   * the pre-order of the element's subtree, every comment of it at the
   * element's own depth: the subtree is folded into one flat run in stored
   * order, each comment's descendants before its next sibling.
   */
  lemma {:induction false} DisplayIsPreOrder(idx: Index, c: Comment, maxDepth: int, depth: int, rank: Rank)
    requires Ranked(idx, rank)
    requires maxDepth <= depth + 1
    requires ExpandedOnce(idx, PreOrder(idx, c, rank))
    ensures Display(idx, c, maxDepth, depth, rank).emitted == AtDepth(PreOrder(idx, c, rank), depth)
    decreases RankOf(rank, c.id), 1, 0
  {
    if c.id in idx {
      var kids := idx[c.id];
      var rest := PreOrderAll(idx, kids, rank, RankOf(rank, c.id));
      ExpandedOnceSplit(idx, [c], rest);
      DisplayAllIsPreOrder(idx, kids, maxDepth, depth, rank, RankOf(rank, c.id));
      AtDepthConcat([c], rest, depth);
    }
  }

  lemma {:induction false} DisplayAllIsPreOrder(idx: Index, cs: seq<Comment>, maxDepth: int, depth: int, rank: Rank, bound: nat)
    requires Ranked(idx, rank)
    requires forall x :: x in cs ==> RankOf(rank, x.id) < bound
    requires maxDepth <= depth + 1
    requires ExpandedOnce(idx, PreOrderAll(idx, cs, rank, bound))
    ensures DisplayAll(idx, cs, maxDepth, depth, rank, bound).emitted == AtDepth(PreOrderAll(idx, cs, rank, bound), depth)
    decreases bound, 0, |cs|
  {
    if cs != [] {
      var init, last := cs[..|cs| - 1], cs[|cs| - 1];
      var a, b := PreOrderAll(idx, init, rank, bound), PreOrder(idx, last, rank);
      ExpandedOnceSplit(idx, a, b);
      DisplayAllIsPreOrder(idx, init, maxDepth, depth, rank, bound);
      DisplayAllConsumesSubtrees(idx, init, maxDepth, depth, rank, bound);
      PreOrderFrame(idx, IdsOf(a), last, rank);
      var rest := idx - IdsOf(a);
      DisplayIsPreOrder(rest, last, maxDepth, depth, rank);
      AtDepthConcat(a, b, depth);
    }
  }
}
