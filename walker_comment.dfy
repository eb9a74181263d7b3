/**
 * The comment walker (`nextbuild_Walker_Comment`): the container and
 * element-close markup chosen by the list style, the depth bookkeeping of
 * `start_el`, and the depth-limited, orphan-preventing `display_element`.
 */
module WalkerComment {
  import opened CommentTree
  import opened Flattening

  /** What `start_lvl` appends before a level of child comments. */
  function LevelOpen(style: string): (s: string)
    ensures s == "" <==> style == "div"
    ensures style == "ol" ==> s == "<ol class=\"children\">\n"
    ensures style != "div" && style != "ol" ==> s == "<ul class=\"children\">\n"
  {
    match style
    case "div" => ""
    case "ol" => "<ol class=\"children\">\n"
    case _ => "<ul class=\"children\">\n"
  }

  /** What `end_lvl` appends after a level of child comments. */
  function LevelClose(style: string): (s: string)
    ensures s == "" <==> style == "div"
    ensures style == "ol" ==> s == "</ol><!-- .children -->\n"
    ensures style != "div" && style != "ol" ==> s == "</ul><!-- .children -->\n"
  {
    match style
    case "div" => ""
    case "ol" => "</ol><!-- .children -->\n"
    case _ => "</ul><!-- .children -->\n"
  }

  /** What `end_el` appends after a comment when no end callback is given. */
  function ElementClose(style: string): (s: string)
    ensures style == "div" ==> s == "</div><!-- #comment-## -->\n"
    ensures style != "div" ==> s == "</li><!-- #comment-## -->\n"
  {
    if style == "div" then "</div><!-- #comment-## -->\n" else "</li><!-- #comment-## -->\n"
  }

  /**
   * The two ends of a level agree: both are empty (style `div`) or both name
   * the same list element, `ol` or `ul`.
   */
  lemma LevelsBalance(style: string)
    ensures LevelOpen(style) == "" <==> LevelClose(style) == ""
    ensures LevelOpen(style) != "" ==>
              LevelOpen(style)[0] == '<' && LevelClose(style)[..2] == "</" &&
              LevelOpen(style)[1..3] == LevelClose(style)[2..4] &&
              LevelOpen(style)[1..3] in {"ol", "ul"}
  {
    var open, close := LevelOpen(style), LevelClose(style);
    if style != "div" {
      var l := if style == "ol" then 'o' else 'u';
      assert |open| > 3 && |close| > 4;
      assert open[0] == '<' && open[1] == l && open[2] == 'l';
      assert close[0] == '<' && close[1] == '/' && close[2] == l && close[3] == 'l';
      assert open[1..3] == [l, 'l'] == close[2..4];
      assert close[..2] == ['<', '/'];
    }
  }

  lemma AppendAssoc<T>(a: seq<T>, b: seq<T>, c: seq<T>)
    ensures a + b + c == a + (b + c)
  {
  }

  class CommentWalker {
    /** The markup produced so far (`$output`). */
    var output: string
    /** `$GLOBALS['comment_depth']`. */
    var commentDepth: int
    /** `$GLOBALS['comment']`. */
    var current: Option<Comment>
    /** The children index (`$children_elements`), shared by a whole traversal. */
    var children: Index
    /** The elements the base display step has emitted, with their depths. */
    var trace: seq<Visit>

    constructor (index: Index)
      ensures output == "" && commentDepth == 0 && current == None
      ensures children == index && trace == []
    {
      output := "";
      commentDepth := 0;
      current := None;
      children := index;
      trace := [];
    }

    /** `start_lvl`: opens a level of child comments. */
    method StartLvl(depth: int, style: string)
      modifies this
      ensures output == old(output) + LevelOpen(style)
      ensures commentDepth == depth + 1
      ensures current == old(current) && children == old(children) && trace == old(trace)
    {
      commentDepth := depth + 1;
      output := output + LevelOpen(style);
    }

    /** `end_lvl`: closes a level of child comments. */
    method EndLvl(depth: int, style: string)
      modifies this
      ensures output == old(output) + LevelClose(style)
      ensures commentDepth == depth + 1
      ensures current == old(current) && children == old(children) && trace == old(trace)
    {
      commentDepth := depth + 1;
      output := output + LevelClose(style);
    }

    /** `end_el` without an end callback: closes one comment. */
    method EndEl(style: string)
      modifies this
      ensures output == old(output) + ElementClose(style)
      ensures commentDepth == old(commentDepth) && current == old(current)
      ensures children == old(children) && trace == old(trace)
    {
      output := output + ElementClose(style);
    }

    /**
     * `start_el`: the comment is rendered one level below the depth it is
     * given, that depth and the comment become current, and the rendered
     * markup is appended. The markup comes from the callback or template,
     * which are outside this model, so it is a parameter.
     */
    method StartEl(comment: Comment, depth: int, markup: string) returns (rendered: int)
      modifies this
      ensures rendered == depth + 1
      ensures commentDepth == rendered && current == Some(comment)
      ensures output == old(output) + markup
      ensures children == old(children) && trace == old(trace)
    {
      rendered := depth + 1;
      commentDepth := rendered;
      current := Some(comment);
      output := output + markup;
    }

    /** The base class's display step, seen from here: it emits the element at `depth`. */
    method BaseDisplayElement(element: Comment, depth: int)
      modifies this
      ensures trace == old(trace) + [Visit(element, depth)]
      ensures output == old(output) && commentDepth == old(commentDepth) && current == old(current)
      ensures children == old(children)
    {
      trace := trace + [Visit(element, depth)];
    }

    /**
     * `display_element`: an absent element does nothing; otherwise the base
     * step emits it, and if the next level would reach `maxDepth` while its
     * id still has an entry, each of those children is displayed at the same
     * `depth`, in stored order, before the entry is removed.
     */
    method DisplayElement(element: Option<Comment>, maxDepth: int, depth: int, ghost rank: Rank)
      requires Ranked(children, rank)
      modifies this
      ensures element.None? ==> children == old(children) && trace == old(trace)
      ensures element.Some? ==>
                var r := Display(old(children), element.value, maxDepth, depth, rank);
                children == r.index && trace == old(trace) + r.emitted
      ensures output == old(output) && commentDepth == old(commentDepth) && current == old(current)
      decreases if element.Some? then RankOf(rank, element.value.id) else 0
    {
      if element.None? {
        return;
      }
      var c := element.value;
      var id := c.id;
      ghost var start := children;
      BaseDisplayElement(c, depth);
      ghost var emittedBefore := trace;
      if maxDepth <= depth + 1 && id in children {
        var kids := children[id];
        for i := 0 to |kids|
          invariant children == DisplayAll(start, kids[..i], maxDepth, depth, rank, RankOf(rank, id)).index
          invariant trace == emittedBefore + DisplayAll(start, kids[..i], maxDepth, depth, rank, RankOf(rank, id)).emitted
          invariant output == old(output) && commentDepth == old(commentDepth) && current == old(current)
        {
          ghost var done := DisplayAll(start, kids[..i], maxDepth, depth, rank, RankOf(rank, id));
          RankedSubIndex(children, start, rank);
          DisplayAllStep(start, kids, i, maxDepth, depth, rank, RankOf(rank, id));
          DisplayElement(Some(kids[i]), maxDepth, depth, rank);
          ghost var next := Display(done.index, kids[i], maxDepth, depth, rank);
          AppendAssoc(emittedBefore, done.emitted, next.emitted);
        }
        assert kids[..|kids|] == kids;
        children := children - {id};
      }
    }
  }
}
