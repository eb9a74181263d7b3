# Comment walker of the nextbuild theme

This project models the comment walker `nextbuild_Walker_Comment` of the
nextbuild WordPress theme. The walker renders a thread of comments as nested
HTML lists. The model covers:

- the markup that opens and closes a level of replies (`start_lvl`,
  `end_lvl`);
- the markup that closes one comment (`end_el` without an end callback);
- the depth bookkeeping of `start_el` and the appending of its rendered markup;
- `display_element` and its orphan-preventing flattening.

`display_element` first lets the base walker display the element. When the
next level would reach the depth cap (`max_depth <= depth + 1`) and the
element still has an entry in the children index, it then displays each of
those children at the element's own depth, one after another, and removes
the entry.

The model has three modules:

- `CommentTree`: comments, the children index (parent id to the ordered list
  of child comments), and the reference pre-order of a subtree.
  Acyclicity is witnessed by a rank on ids (`Ranked`) that strictly decreases
  from a parent to each child.
- `Flattening`: what one `display_element` call does, as a function of the
  index it starts from (`Display`, and `DisplayAll` for a run of siblings),
  with the theorems about it. A flattening call consumes exactly the entries
  of its subtree. When the subtree is tree-shaped it emits the subtree's
  pre-order, all at the element's depth.
- `WalkerComment`: the markup functions, and the class `CommentWalker`. Its
  fields are `output` (`$output`), `commentDepth` and `current` (the
  globals `comment_depth` and `comment`), `children` (`$children_elements`,
  shared by a whole traversal) and `trace`. `trace` is the sequence of
  (comment, depth) pairs the base display step has been given. The method
  `DisplayElement` is proved to leave `children` and `trace` exactly as
  `Flattening.Display` says.

WordPress's `Walker` treats `max_depth == 0` as "all levels". The condition
at line 147 has no `max_depth > 0` guard, so with `max_depth == 0` and a
non-negative depth it holds whenever the element's entry is still present.
`Flattening.Flattens` and `Flattening.DisplayUnlimitedDepth` state this. At
unlimited depth, flattening is avoided only because the base walker has
already consumed the entry before line 147 is reached.

## Model

| member | source | states |
|---|---|---|
| `CommentTree.PreOrder` | inc/next-build-walker-comment.php:108-116 | The reference order of a subtree. It starts with the comment itself; its children's subtrees follow in stored order. |
| `CommentTree.PreOrderAll` | inc/next-build-walker-comment.php:148-149 | The reference order of a run of siblings. It is their subtrees one after another, and it contains every sibling of the run. |
| `Flattening.Flattens` | inc/next-build-walker-comment.php:147 | The branch condition as written: `max_depth <= depth + 1` and the id has an entry. There is no guard for `max_depth == 0`: with it and a non-negative depth, the condition holds exactly when the entry is present. Without an entry it never holds. |
| `Flattening.Display` | inc/next-build-walker-comment.php:131-154 | A `display_element` call only removes entries from the children index. Every entry it keeps still has its original child list. |
| `Flattening.DisplayAll` | inc/next-build-walker-comment.php:148-150 | Displaying a run of children in turn only removes entries from the index. Each child sees the index its predecessors left. |
| `Flattening.DisplayEmitsAtDepth` | inc/next-build-walker-comment.php:140-152 | The element is emitted first, at `depth`, and every visit the call emits is at that same depth. After a flattening call the element's entry is gone. |
| `Flattening.DisplayAllEmitsAtDepth` | inc/next-build-walker-comment.php:148-150 | Displaying a run of children displays every child of the run at the given depth. All visits are at that depth, and there are at least as many as there are children. |
| `Flattening.DisplayOnlyEmitsUnlessFlattening` | inc/next-build-walker-comment.php:140-153 | A call emits only its element and leaves the index as it was if and only if the flattening condition is false. |
| `Flattening.DisplayUnlimitedDepth` | inc/next-build-walker-comment.php:147 | With `max_depth == 0` and a non-negative depth, the index is left unchanged if and only if the element has no entry. |
| `Flattening.DisplayConsumesSubtree` | inc/next-build-walker-comment.php:147-153 | At the cap, a call removes exactly the ids of the element's subtree from the index. Every other entry is kept, unchanged. |
| `Flattening.DisplayAllConsumesSubtrees` | inc/next-build-walker-comment.php:148-150 | At the cap, a run of children removes exactly the ids of their subtrees. |
| `Flattening.DisplayIsPreOrder` | inc/next-build-walker-comment.php:108-116 | At the cap, when no expanded comment is reached twice, the call emits the pre-order of the element's subtree with every visit at the element's depth. Descendants come before the next sibling. |
| `Flattening.DisplayAllIsPreOrder` | inc/next-build-walker-comment.php:148-150 | At the cap, for tree-shaped input, a run of children emits the concatenated pre-orders of their subtrees, all at the given depth. |
| `WalkerComment.LevelOpen` | inc/next-build-walker-comment.php:57-67 | The level opener is empty exactly for style `div`. It is `<ol class="children">` plus a newline for `ol`, and the `ul` form for any other style. |
| `WalkerComment.LevelClose` | inc/next-build-walker-comment.php:87-97 | The level closer is empty exactly for style `div`. It is `</ol><!-- .children -->` plus a newline for `ol`, and the `ul` form otherwise. |
| `WalkerComment.ElementClose` | inc/next-build-walker-comment.php:221-225 | A comment is closed with `</div><!-- #comment-## -->` for style `div` and with `</li><!-- #comment-## -->` otherwise, each followed by a newline. |
| `WalkerComment.LevelsBalance` | inc/next-build-walker-comment.php:53-98 | The opener and closer of a level are both empty, or both are tags naming the same list element, which is `ol` or `ul`. |
| `WalkerComment.CommentWalker.StartLvl` | inc/next-build-walker-comment.php:53-68 | `start_lvl` sets the comment depth to `depth + 1` and appends the level opener. Nothing else changes. |
| `WalkerComment.CommentWalker.EndLvl` | inc/next-build-walker-comment.php:83-98 | `end_lvl` sets the comment depth to `depth + 1` and appends the level closer. Nothing else changes. |
| `WalkerComment.CommentWalker.EndEl` | inc/next-build-walker-comment.php:213-226 | Without an end callback, `end_el` appends the element closer. Nothing else changes. |
| `WalkerComment.CommentWalker.StartEl` | inc/next-build-walker-comment.php:172-197 | `start_el` renders the comment at `depth + 1` and records that depth and the comment as current. It appends the rendered markup to the output and changes nothing else. |
| `WalkerComment.CommentWalker.BaseDisplayElement` | inc/next-build-walker-comment.php:140 | The base display step emits the element at `depth`. The index and the output are untouched. |
| `WalkerComment.CommentWalker.DisplayElement` | inc/next-build-walker-comment.php:131-154 | An absent element changes nothing. Otherwise the new index and the appended visits are exactly those of `Flattening.Display` on the old index. The output and the globals are unchanged. |

## Left out

- The base walker's own `display_element` is not part of this model. The
  base step is an emission into `trace` that leaves the index and the output
  alone. The real base step also renders the element through `start_el` and
  `end_el`. Below the cap it descends into the children at `depth + 1` and
  removes their entry. So the flattening theorems describe this class's own
  descent only.
- The rendering of a comment (`ping`, `comment`, `html5_comment`) is left
  out. So are the `callback` branch of `start_el` with its output buffering,
  and the `end-callback` branch of `end_el`. They call templates and
  user functions that are not part of this model. `WalkerComment.CommentWalker.StartEl`
  therefore takes the markup they produce as a parameter and appends it.
- The globals `comment_depth` and `comment` are fields of the walker object,
  not process-wide state.
- Cyclic children indexes are excluded: every operation on the index
  requires a rank that witnesses acyclicity. In PHP a cycle whose entries
  are still present would recurse without end.
- `Flattening.DisplayIsPreOrder`: the exact pre-order is stated only for
  input where no expanded comment is reachable twice. On shared subtrees,
  `Flattening.DisplayConsumesSubtree` still gives the exact effect on the
  index.
- Style strings are compared by plain equality. PHP's loose `==` and
  `switch` comparison coincide with it for the literals `div` and `ol`.
- `Option.None` stands for every falsy `$element` that `!$element` rejects.
