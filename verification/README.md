# SpotifyPlayer search trees and player helpers, in Dafny

This project models the algorithmic core of the SpotifyPlayer front end and
proves properties of the model.

- **The keyed search-tree engine behind the dictionary page.** This is the
  unbalanced binary search tree of `BST.ts` and the red-black tree of
  `RedBlackTree.ts`, which inherits from it. Both compare keys after trimming
  and lower-casing them, with `localeCompare` as the ordering. Beyond insert,
  search, delete, substring search and height, the engine answers the two path
  queries that drive the step-by-step animation.
- **The LRC lyric parser and the active-line scan of the lyrics view.**
- **The small pure helpers of the player and pages.** These are the `m:ss`
  clocks, the repeat-button cycle, the volume icon and the "time ago" buckets.

Layout, one module per file:

| file | module | models |
|---|---|---|
| `options.dfy` | `Options` | the absent/present result of `search` |
| `strings.dfy` | `Strings` | JavaScript `trim`, `toLowerCase`, `includes`, `split` |
| `decimal.dfy` | `Decimal` | integers printed in template literals; `parseInt` on digits |
| `order.dfy` | `Order` | `normalize`, `isLess`, `isEqual`; sorted sequences |
| `trees.dfy` | `Trees` | nodes, parent links (as a zipper), in-order keys |
| `bst.dfy` | `Bst` | every operation of `BinarySearchTree` |
| `redblack.dfy` | `RedBlack` | rotations, `insertFixup`, `RedBlackTree.insert` |
| `redblack_invariants.dfy` | `RedBlackInvariants` | the red-black invariants and their preservation |
| `lyrics_parser.dfy` | `LyricsParser` | `parseLRC` |
| `lyrics_box.dfy` | `LyricsBox` | the `activeIndex` scan |
| `now_playing.dfy` | `NowPlaying` | `formatTime`, the repeat cycle, the volume icon |
| `playlist_details.dfy` | `PlaylistDetails` | `formatDuration` |
| `home.dfy` | `Home` | `timeAgo` |

## How the trees are modelled

A tree is an immutable value, `Nil | Node(left, key, color, right)`. The
source's nodes carry parent links (`p`). The model replaces them with a
zipper: a focused subtree plus the chain of parent frames above it.
`u.p === null` becomes "the frame chain is `Top`", and re-linking a parent
slot becomes plugging a new subtree into the frames. A "node handle" such as
the argument of `delete` or the result of `search` is therefore a zipper.

Key comparison is a `Policy`: a normalization plus a collation. The
application's policy is `Order.Source(collate)`, which uses `Strings.Normalize`
(trim, then lower-case) with the collation as a parameter. The properties that
need the collation to be an order ask that `isLess` be a strict order on keys,
total up to `isEqual` (`Order.Lawful`).

## Behaviour worth knowing

- **`findAll` with a blank query.** Every string includes `""`, so a query
  that normalizes to the empty string returns every node, in order
  (`Bst.FindAllBlankQuery`).
- **Deleting from the red-black tree.** `RedBlackTree` does not override
  `delete`, so the inherited unbalanced delete runs, and no colours are
  repaired. Removing the black root of `B(A, C)` with `A` and `C` red lets the
  successor `C` keep its red colour, leaving a red root over a red child
  (`RedBlackInvariants.DeleteMayLeaveRedRoot`). Removing a black leaf of an
  all-black tree leaves unequal black heights
  (`RedBlackInvariants.DeleteMayUnbalance`).

## Model

| member | source | states |
|---|---|---|
| `Strings.Trim` | frontend/src/utils/bst/BST.ts:32 | `trim` leaves a string that neither starts nor ends with JavaScript white space and is no longer than the input |
| `Strings.TrimSlice` | frontend/src/utils/bst/BST.ts:32 | what `trim` keeps is one contiguous slice of the input, starting where the leading white space ends, and everything it removed at either end is white space |
| `Strings.LowerChar` | frontend/src/utils/bst/BST.ts:32 | one character of `toLowerCase`: an ASCII capital becomes the letter at the same place in `a`-`z`, a Latin-1 capital its small letter 0x20 further on, every non-capital is kept, no capital survives, and white space stays white space |
| `Strings.LowerCharEqual` | frontend/src/utils/bst/BST.ts:32 | two characters lower-case alike exactly when they are equal or one is the capital of the other |
| `Strings.Lower` | frontend/src/utils/bst/BST.ts:32 | `toLowerCase` keeps the length, maps each character on its own, and leaves no capital |
| `Strings.NormalizeIdempotent` | frontend/src/utils/bst/BST.ts:31-33 | normalizing a key twice is the same as normalizing it once |
| `Strings.Normalize` | frontend/src/utils/bst/BST.ts:31-33 | a normalized key is the lower-cased form of one contiguous slice of the key, everything outside that slice is white space, it has no white space at either end, and lower-casing it again changes nothing |
| `Strings.Includes` | frontend/src/utils/bst/BST.ts:102 | every key includes the empty query and each of its own prefixes, and an included text is never longer than the key |
| `Order.SourceEqualExample` | frontend/src/utils/bst/BST.ts:31-41 | whatever the collation, ` Apple` and `apple` are equal keys, while `apple` and `mango` are not |
| `Order.SourceEqualNormalized` | frontend/src/utils/bst/BST.ts:39-41 | under the application's policy, `isEqual` holds between a key and its normalized form |
| `Order.EqualCompatible` | frontend/src/utils/bst/BST.ts:35-41 | `isEqual` is reflexive, symmetric and transitive, and `isLess` answers the same for equal keys on either side, whatever the collation |
| `Order.LessExcludes` | frontend/src/utils/bst/BST.ts:35-41 | under a lawful collation, a key less than another is neither equal to it nor greater |
| `Order.LessTrichotomy` | frontend/src/utils/bst/BST.ts:35-41 | under a lawful collation, any two keys are less, equal or greater: the walk's three branches cover every case |
| `Order.SortedDistinct` | frontend/src/utils/bst/BST.ts:35-41 | two different positions of a sorted key sequence never hold keys that `isEqual` calls equal |
| `Bst.Search` | frontend/src/utils/bst/BST.ts:74-86 | a found node lies in the tree and its key is `isEqual` to the searched key; the tree is unchanged |
| `Bst.SearchCorrect` | frontend/src/utils/bst/BST.ts:74-86 | in an ordered tree, `search` finds a node exactly when some stored key is equal to the searched key |
| `Bst.Descend` | frontend/src/utils/bst/BST.ts:74-86 | the comparison walk of `search` and `insert` stays in the same tree, and a node it stops on holds a key equal to the searched one |
| `Bst.DescendFinds` | frontend/src/utils/bst/BST.ts:74-86 | in an ordered tree that holds an equal key, the walk stops on a node rather than an empty child |
| `Bst.DescendBrackets` | frontend/src/utils/bst/BST.ts:51-60 | where the walk of an ordered tree ends in an empty child, every key before that slot is less than the new key and every key after it is greater |
| `Bst.DescendFollowsWalk` | frontend/src/utils/bst/BST.ts:51-86 | the handle walk stops on the path's last node when that node holds an equal key, and otherwise in that node's empty child on the side `isLess` chooses |
| `Bst.Insert` | frontend/src/utils/bst/BST.ts:44-71 | `insert` either leaves the tree unchanged or links one new leaf with the given key and colour into an empty child slot, changing nothing else |
| `Bst.InsertExisting` | frontend/src/utils/bst/BST.ts:45 | inserting a key equal to a stored key changes nothing |
| `Bst.InsertFresh` | frontend/src/utils/bst/BST.ts:44-71 | inserting a new key keeps the tree ordered, adds exactly that key, and places it in the in-order sequence without moving the other keys |
| `Bst.InOrderSearch` | frontend/src/utils/bst/BST.ts:95-107 | the nodes collected are nodes of the tree, in in-order order, and their keys are exactly the in-order keys whose normalized form includes the query |
| `Bst.FindAll` | frontend/src/utils/bst/BST.ts:89-93 | `findAll` returns, in in-order order, exactly the nodes whose normalized key includes the normalized query |
| `Bst.FindAllBlankQuery` | frontend/src/utils/bst/BST.ts:89-93 | a query that normalizes to the empty string selects every node of the tree |
| `Bst.Leftmost` | frontend/src/utils/bst/BST.ts:110-114 | the minimum of a subtree is one of its nodes, has no left child, and holds the subtree's first in-order key |
| `Bst.Minimum` | frontend/src/utils/bst/BST.ts:110-114 | walking to the minimum moves the handle only downwards: the tree and the keys before the start node are unchanged |
| `Bst.Transplant` | frontend/src/utils/bst/BST.ts:116-127 | replacing the subtree at a handle keeps the keys before and after it in place, and replacing at the root makes the new subtree the whole tree |
| `Bst.DetachMinimum` | frontend/src/utils/bst/BST.ts:136-140 | splicing the successor out of the right subtree removes exactly its first in-order key |
| `Bst.Replacement` | frontend/src/utils/bst/BST.ts:130-144 | the subtree `delete` puts in the deleted node's place, in each of the three cases, holds the keys of its left child followed by those of its right child |
| `Bst.Delete` | frontend/src/utils/bst/BST.ts:129-145 | `delete` removes exactly the deleted node's position from the in-order key sequence, in all three cases |
| `Bst.DeleteTwoChildren` | frontend/src/utils/bst/BST.ts:134-144 | with two children, the successor takes the deleted node's place with its own colour, and the right subtree loses the successor |
| `Bst.DeleteRemovesKey` | frontend/src/utils/bst/BST.ts:129-145 | deleting from an ordered tree keeps it ordered, removes exactly that key, and a later `search` for it finds nothing |
| `Bst.Height` | frontend/src/utils/bst/BST.ts:147-152 | the height is -1 exactly for the empty tree and is always below the node count |
| `Bst.DownPathBound` | frontend/src/utils/bst/BST.ts:147-152 | no downward path from the root has more than height + 1 nodes |
| `Bst.DeepestPath` | frontend/src/utils/bst/BST.ts:147-152 | some downward path through the taller children has exactly height + 1 nodes, so the height is the longest path's edge count |
| `Bst.InsertionPath` | frontend/src/utils/bst/BST.ts:155-174 | the insertion path is the comparison walk from the root: each next node is the left child when the key is less and the right child otherwise, stopping at an equal key or an empty child; it is no longer than height + 1 |
| `Bst.SearchPath` | frontend/src/utils/bst/BST.ts:177-196 | the search path is the same comparison walk, no longer than height + 1 |
| `Bst.PathQueriesAgree` | frontend/src/utils/bst/BST.ts:155-196 | there is only one comparison walk, so the two path queries return the same nodes |
| `Bst.WalkUnique` | frontend/src/utils/bst/BST.ts:155-196 | the path contract has exactly one solution: any node sequence meeting it is the comparison walk |
| `Bst.SearchEndsSearchPath` | frontend/src/utils/bst/BST.ts:74-86 | `search` succeeds exactly when the search path ends on an equal key, and then it returns the path's last node |
| `Bst.InsertBelowPathEnd` | frontend/src/utils/bst/BST.ts:62-70 | a new key becomes the root when the path is empty, and otherwise the child of the path's last node on the side its comparison chose |
| `RedBlack.LeftRotate` | frontend/src/utils/bst/RedBlackTree.ts:40-61 | a left rotation keeps the in-order keys, does nothing without a right child, lifts the right child above the rotated node, and is undone by a right rotation |
| `RedBlack.RightRotate` | frontend/src/utils/bst/RedBlackTree.ts:63-84 | a right rotation keeps the in-order keys, does nothing without a left child, and lifts the left child above the rotated node |
| `RedBlack.RecolorUp` | frontend/src/utils/bst/RedBlackTree.ts:93-98 | the red-uncle case keeps the keys and moves the handle up two levels to the grandparent |
| `RedBlack.RotateParentLeft` | frontend/src/utils/bst/RedBlackTree.ts:99-102 | the inner case turns a right child into a left child under the same grandparent, keeping the keys |
| `RedBlack.RotateParentRight` | frontend/src/utils/bst/RedBlackTree.ts:120-123 | the mirrored inner case turns a left child into a right child under the same grandparent, keeping the keys |
| `RedBlack.RotateGrandRight` | frontend/src/utils/bst/RedBlackTree.ts:103-109 | the outer case paints the parent black, rotates the grandparent right, keeps the keys and moves the handle up one level |
| `RedBlack.RotateGrandLeft` | frontend/src/utils/bst/RedBlackTree.ts:124-130 | the mirrored outer case does the same with a left rotation |
| `RedBlack.FixStep` | frontend/src/utils/bst/RedBlackTree.ts:87-132 | one loop pass keeps the keys, moves the handle strictly upwards, and rotates at most twice, only when it then ends the loop |
| `RedBlack.Fixup` | frontend/src/utils/bst/RedBlackTree.ts:86-133 | `insertFixup`'s loop terminates where its guard fails, keeps the keys, and makes at most two rotations in all |
| `RedBlack.SlotIsDescend` | frontend/src/utils/bst/RedBlackTree.ts:16-24 | when no equal key is stored, the red-black walk, which has no equality test, ends in the same empty slot as the unbalanced walk |
| `RedBlack.Slot` | frontend/src/utils/bst/RedBlackTree.ts:14-24 | the red-black insert's walk, which has no equality test, stays in the same tree and always ends in an empty child slot |
| `RedBlack.Insert` | frontend/src/utils/bst/RedBlackTree.ts:8-38 | an equal key leaves the tree unchanged; otherwise the root ends black and the keys are in the order the unbalanced insert gives |
| `RedBlackInvariants.PlugBalanced` | frontend/src/utils/bst/RedBlackTree.ts:86-135 | a tree has equal black heights everywhere exactly when the subtree at a handle does and the frames above agree with its black height |
| `RedBlackInvariants.PlugNoRedRed` | frontend/src/utils/bst/RedBlackTree.ts:86-135 | a tree has no red node with a red child exactly when the subtree at a handle has none and the frames above add none |
| `RedBlackInvariants.RecolorUpKeeps` | frontend/src/utils/bst/RedBlackTree.ts:93-98 | recolouring under a red uncle preserves the loop invariant: a red handle that is the only possible red-red violation |
| `RedBlackInvariants.RotateParentLeftKeeps` | frontend/src/utils/bst/RedBlackTree.ts:99-102 | the inner rotation preserves the loop invariant and leaves the handle under a red parent |
| `RedBlackInvariants.RotateParentRightKeeps` | frontend/src/utils/bst/RedBlackTree.ts:120-123 | the mirrored inner rotation preserves the loop invariant |
| `RedBlackInvariants.RotateGrandRightKeeps` | frontend/src/utils/bst/RedBlackTree.ts:103-109 | under a black uncle, the outer rotation preserves the loop invariant |
| `RedBlackInvariants.RotateGrandLeftKeeps` | frontend/src/utils/bst/RedBlackTree.ts:124-130 | the mirrored outer rotation preserves the loop invariant |
| `RedBlackInvariants.FixStepKeeps` | frontend/src/utils/bst/RedBlackTree.ts:87-132 | every loop pass preserves the loop invariant |
| `RedBlackInvariants.FixupKeeps` | frontend/src/utils/bst/RedBlackTree.ts:86-133 | the whole loop preserves the loop invariant |
| `RedBlackInvariants.DoneRepaired` | frontend/src/utils/bst/RedBlackTree.ts:86-135 | when the loop stops, painting the root black yields a valid red-black tree |
| `RedBlackInvariants.InsertKeepsRedBlack` | frontend/src/utils/bst/RedBlackTree.ts:8-38 | inserting into a valid red-black tree yields a valid red-black tree |
| `RedBlackInvariants.InsertAllKeepsRedBlack` | frontend/src/utils/bst/RedBlackTree.ts:8-38 | any sequence of inserts into a valid red-black tree, an empty one included, yields a valid red-black tree |
| `RedBlackInvariants.InsertExisting` | frontend/src/utils/bst/RedBlackTree.ts:10 | inserting a key equal to a stored key changes nothing |
| `RedBlackInvariants.InsertFresh` | frontend/src/utils/bst/RedBlackTree.ts:8-38 | inserting a new key keeps the tree ordered, adds exactly that key, and places it in the in-order sequence without moving the others |
| `RedBlackInvariants.RedBlackHeight` | frontend/src/utils/bst/RedBlackTree.ts:86-135 | a valid red-black tree of height h has at least 2^((h+1)/2) - 1 nodes, so its height is logarithmic in its size |
| `RedBlackInvariants.DeleteMayLeaveRedRoot` | frontend/src/utils/bst/BST.ts:129-145 | the inherited delete, removing the root of a valid tree `B(A red, C red)`, leaves `C(A)` with a red root over a red child |
| `RedBlackInvariants.DeleteMayUnbalance` | frontend/src/utils/bst/BST.ts:129-145 | the inherited delete, removing a black leaf of an all-black tree, breaks equal black heights |
| `Strings.SplitPieces` | frontend/src/utils/lyricsParser.ts:7 | no piece produced by `split` contains the separator |
| `Strings.Split` | frontend/src/utils/lyricsParser.ts:7 | `split` always returns at least one piece; `Strings.SplitJoin` and `Strings.SplitPieces` pin down the pieces |
| `Strings.SplitAppend` | frontend/src/utils/lyricsParser.ts:7 | splitting two texts joined by one separator gives the first text's pieces followed by the second's |
| `Strings.SplitJoin` | frontend/src/utils/lyricsParser.ts:7 | splitting the join of separator-free pieces gives the pieces back |
| `LyricsParser.Match` | frontend/src/utils/lyricsParser.ts:8-13 | whatever the recognizer accepts fits the pattern: bracketed two-digit minutes and seconds, a 2-3 digit fraction, and a remainder without line terminators |
| `LyricsParser.MatchComplete` | frontend/src/utils/lyricsParser.ts:8-13 | every way a line fits the pattern is found, and it is the only one |
| `LyricsParser.PadEnd` | frontend/src/utils/lyricsParser.ts:17 | `padEnd` keeps the string as a prefix, adds only the pad character, and reaches the target length |
| `Decimal.TwoDigitValue` | frontend/src/utils/lyricsParser.ts:15-16 | `parseInt` of a two-digit group is ten times the first digit plus the second |
| `Decimal.ThreeDigitValue` | frontend/src/utils/lyricsParser.ts:17 | `parseInt` of a three-digit fraction is the digits' value in hundreds, tens and units |
| `LyricsParser.FractionMillisValue` | frontend/src/utils/lyricsParser.ts:17 | a two-digit fraction counts hundredths, a three-digit one milliseconds, both below 1000 |
| `LyricsParser.GroupsTime` | frontend/src/utils/lyricsParser.ts:15-19 | no line time exceeds 99 minutes, 99 seconds and 999 ms |
| `LyricsParser.ParseLine` | frontend/src/utils/lyricsParser.ts:11-22 | a parsed line's time is within that bound and its text carries no surrounding white space |
| `LyricsParser.Kept` | frontend/src/utils/lyricsParser.ts:10-24 | one line yields at most one lyric, never with empty text and never past the time bound |
| `LyricsParser.ParseLineMatches` | frontend/src/utils/lyricsParser.ts:12-22 | a matching line parses to minutes × 60000 + seconds × 1000 + the padded fraction, with the trimmed remainder as text |
| `LyricsParser.ParseLineRejects` | frontend/src/utils/lyricsParser.ts:12-13 | a line that fits the pattern in no way parses to nothing |
| `LyricsParser.CarriageReturnDropped` | frontend/src/utils/lyricsParser.ts:7-13 | a line still ending in the `'\r'` of a CRLF file is dropped |
| `LyricsParser.KeepAll` | frontend/src/utils/lyricsParser.ts:10-24 | the map and filter keep at most one output per input line, each with non-empty text |
| `LyricsParser.ParseLrc` | frontend/src/utils/lyricsParser.ts:6-25 | there are no more lyrics than newline-separated lines, every text is non-empty, and every time is within the bound |
| `LyricsParser.ParseLrcAppend` | frontend/src/utils/lyricsParser.ts:6-25 | parsing works line by line and keeps input order: two texts joined by a newline parse to the two lyric lists in turn |
| `LyricsParser.ParseLrcSingleLine` | frontend/src/utils/lyricsParser.ts:20-24 | a single line contributes its parse when the text is non-empty, and nothing otherwise |
| `LyricsParser.ExampleHundredths` | frontend/src/utils/lyricsParser.ts:17-19 | `[01:02.45]Hi` starts at 62450 ms |
| `LyricsParser.ExampleSecondsUnchecked` | frontend/src/utils/lyricsParser.ts:16-19 | seconds are not range-checked: `[00:75.000]x` starts at 75000 ms |
| `LyricsParser.ExampleBlankDropped` | frontend/src/utils/lyricsParser.ts:20-24 | a matching line with a blank remainder parses but is filtered out |
| `LyricsBox.LastStarted` | frontend/src/components/Player/LyricsBox.tsx:12-18 | the active line is -1 or the last index whose time has been reached; no later line has started |
| `LyricsBox.ActiveIndex` | frontend/src/components/Player/LyricsBox.tsx:12-18 | the backward scan returns -1 exactly when no line has started, and otherwise the last started line, without assuming sorted input |
| `LyricsBox.LastStartedMonotone` | frontend/src/components/Player/LyricsBox.tsx:12-18 | as playback moves forward, the active line never moves backward |
| `NowPlaying.SecondsField` | frontend/src/components/Player/NowPlaying.tsx:54 | the seconds field is always two digits and reads back as the seconds |
| `Decimal.NatToString` | frontend/src/components/Player/NowPlaying.tsx:54 | a non-negative integer in a template literal prints as digits only, with no leading zero, that read back as the integer |
| `Decimal.IntToString` | frontend/src/pages/PlaylistDetailsPage.tsx:50 | an integer prints with a leading minus exactly when negative, followed by digits that read back as its magnitude |
| `NowPlaying.Clock` | frontend/src/components/Player/NowPlaying.tsx:54 | `m:ss` reads back as the minutes (unpadded, no leading zero) and the seconds |
| `NowPlaying.FormatTime` | frontend/src/components/Player/NowPlaying.tsx:50-55 | the clock text reads back as whole minutes and seconds 0..59 that fall within the second before the clamped position |
| `NowPlaying.FormatTimeNegative` | frontend/src/components/Player/NowPlaying.tsx:51 | any negative position renders as `0:00` |
| `NowPlaying.NextRepeat` | frontend/src/components/Player/NowPlaying.tsx:345-350 | pressing repeat always changes the mode |
| `NowPlaying.RepeatCycle` | frontend/src/components/Player/NowPlaying.tsx:345-350 | three presses restore the mode and two never do |
| `NowPlaying.Icon` | frontend/src/components/Player/NowPlaying.tsx:373-380 | off exactly at 0, mute below 30, down from 30 to 69, up from 70 |
| `NowPlaying.IconMonotone` | frontend/src/components/Player/NowPlaying.tsx:373-380 | on the slider's range 0..100 the icon never gets quieter as the volume rises |
| `PlaylistDetails.JsRem` | frontend/src/pages/PlaylistDetailsPage.tsx:49 | JavaScript's `%` leaves the remainder of the quotient rounded toward zero, with the sign of the dividend |
| `PlaylistDetails.FloorDiv` | frontend/src/pages/PlaylistDetailsPage.tsx:48-49 | `Math.floor` of a quotient by a positive divisor: the largest q with q × divisor at most the dividend |
| `PlaylistDetails.FormatDuration` | frontend/src/pages/PlaylistDetailsPage.tsx:47-51 | for non-negative durations the text is the player clock's; a negative duration starts with a minus sign |
| `PlaylistDetails.NegativeGarbled` | frontend/src/pages/PlaylistDetailsPage.tsx:47-51 | without a clamp, -1 ms renders as `-1:0-1` |
| `Home.Bucket` | frontend/src/pages/Home.tsx:52-56 | the five buckets split all integers at 60, 3600, 86400 and 604800; each count is the floor of the elapsed time in its unit (1..59 minutes, 1..23 hours, 1..6 days, at least 1 week) |
| `Home.TimeAgo` | frontend/src/pages/Home.tsx:48-57 | the text is "Just now" exactly when less than a minute has passed, future times included; otherwise it is the bucket's count, unit letter and " ago" |
| `Home.Render` | frontend/src/pages/Home.tsx:52-56 | a bucket's text is "Just now" exactly for the just-now bucket: no count reads as "Just now" |
| `Home.CountedShape` | frontend/src/pages/Home.tsx:53-56 | a counted bucket reads as its numeral, its unit letter and " ago", with the letter five characters from the end |
| `Home.RenderInjective` | frontend/src/pages/Home.tsx:52-56 | different buckets never read the same: the text determines the unit and the count |

## Left out

- Node identity (`_id = Math.random()`) is not modelled. A node is identified by its position in the tree.
- `localeCompare` is a foreign routine. It is a parameter of the policy, and lemmas that need an order assume that `isLess` is a strict order on keys, total up to `isEqual` (`Order.Lawful`); nothing is assumed about the collation on strings that are not normalized keys. A real collation can report 0 for different strings. `isLess` is then false and the walk goes right, a case outside `Order.Lawful`.
- `Strings.LowerChar` lower-cases ASCII and Latin-1 capitals only; the rest of Unicode's case mapping is not modelled. The tree properties hold for every policy, so they do not depend on it.
- `Strings.Split`, `Trim` and the pattern work on Dafny characters (Unicode scalar values), not on JavaScript's UTF-16 code units.
- Node colours GREEN and BLUE are kept (the unbalanced tree's default colour is GREEN). As in the source, every colour other than RED counts as black.
- `RedBlack.RotateGrandRight`, `RedBlack.RotateGrandLeft`: the guards `if (z.p)` and `if (z.p.p)` at `RedBlackTree.ts` lines 103, 105, 124 and 126 always hold at that point, since the loop only runs under a red parent with a grandparent. They are modelled as shape preconditions rather than branches.
- `RedBlack.Fixup` decreases the handle's depth, which is the loop's termination argument. The source's loop carries no such measure.
- Delete on the red-black tree is the inherited `Bst.Delete`, with no recolouring. This matches the source. Its failure to keep the invariants is shown by the two counterexample lemmas.
- Deleting a node that is not in the tree is undefined in the source. The model's handle is always a position in the tree, so that case cannot be expressed.
- `NowPlaying.FormatTime`, `PlaylistDetails.FormatDuration`, `NowPlaying.Icon`: positions, durations and volumes are modelled as integers. JavaScript numbers may be fractional, and fractional input is not modelled.
- `timeAgo` reads the clock (`Date.now()`) and parses a date string. Both are left out: the model's input is the elapsed whole seconds `diff`.
- React rendering, state, effects, scrolling, animation timing, the tree visualizer's layout, and all backend code (HTTP, database, authentication, lyric fetching and caching) are outside this model.
