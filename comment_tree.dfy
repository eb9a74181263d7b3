/**
 * The comment forest as the comment walker receives it: comments, and the
 * children index that groups them under their parent's id. Besides the data,
 * this module gives the reference pre-order of a subtree (what a plain
 * depth-first walk over the index visits) and the facts about it that the
 * flattening proofs need.
 */
module CommentTree {

  datatype Option<T> = None | Some(value: T)

  /** Comment ids (`comment_ID` and `comment_parent`). */
  type Id = int

  /**
   * A comment. The walker reads only its id (the `id` entry of `db_fields`);
   * the parent id and the content are carried along untouched.
   */
  datatype Comment = Comment(id: Id, parent: Id, content: string)

  /** The children index: parent id to the ordered list of its child comments. */
  type Index = map<Id, seq<Comment>>

  /** A ranking of ids, used only to witness acyclicity; ids it omits rank 0. */
  type Rank = map<Id, nat>

  function RankOf(rank: Rank, id: Id): nat
  {
    if id in rank then rank[id] else 0
  }

  /**
   * Acyclicity of the index, witnessed by a rank that strictly decreases from
   * a parent id to the id of each of its children.
   */
  ghost predicate Ranked(idx: Index, rank: Rank)
  {
    forall p, x :: p in idx && x in idx[p] ==> RankOf(rank, x.id) < RankOf(rank, p)
  }

  /** `small` keeps some of the entries of `big`, each with its child list unchanged. */
  ghost predicate SubIndex(small: Index, big: Index)
  {
    forall p :: p in small ==> p in big && small[p] == big[p]
  }

  lemma RankedSubIndex(small: Index, big: Index, rank: Rank)
    requires Ranked(big, rank) && SubIndex(small, big)
    ensures Ranked(small, rank)
  {
  }

  /** The ids of the comments in `s`. */
  function IdsOf(s: seq<Comment>): set<Id>
  {
    set x | x in s :: x.id
  }

  lemma IdsOfConcat(a: seq<Comment>, b: seq<Comment>)
    ensures IdsOf(a + b) == IdsOf(a) + IdsOf(b)
  {
    assert forall x :: x in a + b <==> x in a || x in b;
  }

  /**
   * The pre-order of the subtree below `c`: `c` first, then, when its id has
   * an entry, the subtrees of its children in stored order.
   */
  function PreOrder(idx: Index, c: Comment, rank: Rank): (s: seq<Comment>)
    requires Ranked(idx, rank)
    ensures |s| >= 1 && s[0] == c
    decreases RankOf(rank, c.id), 1, 0
  {
    [c] + if c.id in idx then PreOrderAll(idx, idx[c.id], rank, RankOf(rank, c.id)) else []
  }

  /** The pre-orders of the subtrees below `cs`, one after the other. */
  function PreOrderAll(idx: Index, cs: seq<Comment>, rank: Rank, bound: nat): (s: seq<Comment>)
    requires Ranked(idx, rank)
    requires forall x :: x in cs ==> RankOf(rank, x.id) < bound
    ensures forall x :: x in cs ==> x in s
    decreases bound, 0, |cs|
  {
    if cs == [] then []
    else PreOrderAll(idx, cs[..|cs| - 1], rank, bound) + PreOrder(idx, cs[|cs| - 1], rank)
  }

  /** A set of ids that contains the ids of the children of each of its members that has an entry. */
  ghost predicate Closed(idx: Index, ids: set<Id>)
  {
    forall p, x :: p in ids && p in idx && x in idx[p] ==> x.id in ids
  }

  /** A pre-order contains the children of every comment in it whose id has an entry. */
  lemma {:induction false} PreOrderExpands(idx: Index, c: Comment, rank: Rank)
    requires Ranked(idx, rank)
    ensures forall y, x :: y in PreOrder(idx, c, rank) && y.id in idx && x in idx[y.id] ==>
              x in PreOrder(idx, c, rank)
    decreases RankOf(rank, c.id), 1, 0
  {
    if c.id in idx {
      PreOrderAllExpands(idx, idx[c.id], rank, RankOf(rank, c.id));
    }
  }

  lemma {:induction false} PreOrderAllExpands(idx: Index, cs: seq<Comment>, rank: Rank, bound: nat)
    requires Ranked(idx, rank)
    requires forall x :: x in cs ==> RankOf(rank, x.id) < bound
    ensures forall y, x :: y in PreOrderAll(idx, cs, rank, bound) && y.id in idx && x in idx[y.id] ==>
              x in PreOrderAll(idx, cs, rank, bound)
    ensures Closed(idx, IdsOf(PreOrderAll(idx, cs, rank, bound)))
    decreases bound, 0, |cs|
  {
    if cs != [] {
      PreOrderAllExpands(idx, cs[..|cs| - 1], rank, bound);
      PreOrderExpands(idx, cs[|cs| - 1], rank);
    }
  }

  /** The whole subtree of a comment whose id lies in a closed set lies in that set. */
  lemma {:induction false} SubtreeWithin(idx: Index, ids: set<Id>, c: Comment, rank: Rank)
    requires Ranked(idx, rank) && Closed(idx, ids)
    requires c.id in ids
    ensures IdsOf(PreOrder(idx, c, rank)) <= ids
    decreases RankOf(rank, c.id), 1, 0
  {
    if c.id in idx {
      var kids := idx[c.id];
      SubtreesWithin(idx, ids, kids, rank, RankOf(rank, c.id));
      IdsOfConcat([c], PreOrderAll(idx, kids, rank, RankOf(rank, c.id)));
    } else {
      IdsOfConcat([c], []);
    }
  }

  lemma {:induction false} SubtreesWithin(idx: Index, ids: set<Id>, cs: seq<Comment>, rank: Rank, bound: nat)
    requires Ranked(idx, rank) && Closed(idx, ids)
    requires forall x :: x in cs ==> RankOf(rank, x.id) < bound && x.id in ids
    ensures IdsOf(PreOrderAll(idx, cs, rank, bound)) <= ids
    decreases bound, 0, |cs|
  {
    if cs != [] {
      var init, last := cs[..|cs| - 1], cs[|cs| - 1];
      SubtreesWithin(idx, ids, init, rank, bound);
      SubtreeWithin(idx, ids, last, rank);
      IdsOfConcat(PreOrderAll(idx, init, rank, bound), PreOrder(idx, last, rank));
    }
  }

  /** Removing entries can only shrink the set of ids a subtree reaches. */
  lemma {:induction false} SubtreeShrinks(small: Index, big: Index, c: Comment, rank: Rank)
    requires Ranked(big, rank) && Ranked(small, rank) && SubIndex(small, big)
    ensures IdsOf(PreOrder(small, c, rank)) <= IdsOf(PreOrder(big, c, rank))
    decreases RankOf(rank, c.id), 1, 0
  {
    if c.id in small {
      var kids := small[c.id];
      SubtreesShrink(small, big, kids, rank, RankOf(rank, c.id));
      IdsOfConcat([c], PreOrderAll(small, kids, rank, RankOf(rank, c.id)));
      IdsOfConcat([c], PreOrderAll(big, kids, rank, RankOf(rank, c.id)));
    } else {
      IdsOfConcat([c], []);
    }
  }

  lemma {:induction false} SubtreesShrink(small: Index, big: Index, cs: seq<Comment>, rank: Rank, bound: nat)
    requires Ranked(big, rank) && Ranked(small, rank) && SubIndex(small, big)
    requires forall x :: x in cs ==> RankOf(rank, x.id) < bound
    ensures IdsOf(PreOrderAll(small, cs, rank, bound)) <= IdsOf(PreOrderAll(big, cs, rank, bound))
    decreases bound, 0, |cs|
  {
    if cs != [] {
      var init, last := cs[..|cs| - 1], cs[|cs| - 1];
      SubtreesShrink(small, big, init, rank, bound);
      SubtreeShrinks(small, big, last, rank);
      IdsOfConcat(PreOrderAll(small, init, rank, bound), PreOrder(small, last, rank));
      IdsOfConcat(PreOrderAll(big, init, rank, bound), PreOrder(big, last, rank));
    }
  }

  /**
   * Removing a closed set of entries loses, from a subtree, only ids of that
   * set: what the subtree reached before is reached after, or was removed.
   */
  lemma {:induction false} SubtreeAfterRemoval(idx: Index, ids: set<Id>, c: Comment, rank: Rank)
    requires Ranked(idx, rank) && Closed(idx, ids)
    ensures Ranked(idx - ids, rank)
    ensures IdsOf(PreOrder(idx, c, rank)) <= IdsOf(PreOrder(idx - ids, c, rank)) + ids
    decreases RankOf(rank, c.id), 1, 0
  {
    if c.id in ids {
      SubtreeWithin(idx, ids, c, rank);
    } else if c.id in idx {
      var kids := idx[c.id];
      SubtreesAfterRemoval(idx, ids, kids, rank, RankOf(rank, c.id));
      IdsOfConcat([c], PreOrderAll(idx, kids, rank, RankOf(rank, c.id)));
      IdsOfConcat([c], PreOrderAll(idx - ids, kids, rank, RankOf(rank, c.id)));
    } else {
      IdsOfConcat([c], []);
    }
  }

  lemma {:induction false} SubtreesAfterRemoval(idx: Index, ids: set<Id>, cs: seq<Comment>, rank: Rank, bound: nat)
    requires Ranked(idx, rank) && Closed(idx, ids)
    requires forall x :: x in cs ==> RankOf(rank, x.id) < bound
    ensures Ranked(idx - ids, rank)
    ensures IdsOf(PreOrderAll(idx, cs, rank, bound)) <= IdsOf(PreOrderAll(idx - ids, cs, rank, bound)) + ids
    decreases bound, 0, |cs|
  {
    if cs != [] {
      var init, last := cs[..|cs| - 1], cs[|cs| - 1];
      SubtreesAfterRemoval(idx, ids, init, rank, bound);
      SubtreeAfterRemoval(idx, ids, last, rank);
      IdsOfConcat(PreOrderAll(idx, init, rank, bound), PreOrder(idx, last, rank));
      IdsOfConcat(PreOrderAll(idx - ids, init, rank, bound), PreOrder(idx - ids, last, rank));
    }
  }

  /**
   * Removing entries that the subtree never expands does not change its
   * pre-order.
   */
  lemma {:induction false} PreOrderFrame(idx: Index, ids: set<Id>, c: Comment, rank: Rank)
    requires Ranked(idx, rank)
    requires forall y :: y in PreOrder(idx, c, rank) && y.id in idx ==> y.id !in ids
    ensures Ranked(idx - ids, rank)
    ensures PreOrder(idx - ids, c, rank) == PreOrder(idx, c, rank)
    decreases RankOf(rank, c.id), 1, 0
  {
    if c.id in idx {
      PreOrderAllFrame(idx, ids, idx[c.id], rank, RankOf(rank, c.id));
    }
  }

  lemma {:induction false} PreOrderAllFrame(idx: Index, ids: set<Id>, cs: seq<Comment>, rank: Rank, bound: nat)
    requires Ranked(idx, rank)
    requires forall x :: x in cs ==> RankOf(rank, x.id) < bound
    requires forall y :: y in PreOrderAll(idx, cs, rank, bound) && y.id in idx ==> y.id !in ids
    ensures Ranked(idx - ids, rank)
    ensures PreOrderAll(idx - ids, cs, rank, bound) == PreOrderAll(idx, cs, rank, bound)
    decreases bound, 0, |cs|
  {
    if cs != [] {
      var init, last := cs[..|cs| - 1], cs[|cs| - 1];
      PreOrderAllFrame(idx, ids, init, rank, bound);
      PreOrderFrame(idx, ids, last, rank);
    }
  }
}
