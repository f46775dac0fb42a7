# Connect Four engine and licence-plate pattern search, modelled in Dafny

This project models the algorithmic centre of two small Java programs and proves properties
about each.

**Connect Four.**
- The four kinds of piece: `Player1`, `Player2`, `Empty` and `OutOfBounds`. The rest of the
  engine tells them apart only by their two-letter tag.
- The `Line` counters.
- The `LineHandler`. It creates every four-in-a-row line of a cols x rows grid in the Java
  scan order and keeps one list of line numbers per cell. Four running totals are updated by
  differences on every place and remove.
- The `Board`: grid, column heights, piece count, won flag, and a move stack with a `Player2`
  sentinel. It also renders the board as text and computes the heuristic evaluation.
- The minimax game tree `GTN`. It places a piece, builds the child node on the same board and
  takes the piece back.

The model is functional:
- every Java mutation becomes a function that returns the new value;
- the shared board is threaded through the game-tree functions;
- each of those functions says which board it hands back.

The main results:
- the running totals always equal the sums over all lines;
- `place` followed by `undo` restores the board;
- the search leaves the board as it found it;
- the value the search reports equals an independent reference minimax (`GameTreeSpec.Value`).
  The reference builds every child on a board of its own and folds the children with the
  same tie-breaking and early-exit rule;
- at the root, the search always proposes a legal column.

**Licence plates.**
- `Pattern`: an immutable (total, pattern string) record. Its two Java constructors are the
  datatype constructor and `EmptyPattern`.
- `lesserOf`, `addToPattern` and `createPattern`. The Java field `_allowAlphanumeric` is passed
  as an explicit parameter.
- `format`.

The proofs show:
- the search result reaches the target;
- its total is the product of its characters' weights;
- no allowed pattern with a total that still reaches the target is smaller;
- every proper prefix falls short of the target;
- allowing alphanumerics never makes the result worse;
- `format` writes the decimal digits of n with a comma before every full group of three
  counted from the right. Taking the commas out gives back the numeral of n.

Modules:
- `Pieces` (pieces.dfy) and `Lines` (line.dfy);
- `LineIndex` (line_index.dfy): the geometry of the lines and the per-cell lists;
- `LineHandlers` (line_handler.dfy);
- `Boards` (board.dfy), with `BoardProperties` (board_properties.dfy) and `BoardInvariant`
  (board_invariant.dfy);
- `GameTree` (game_tree.dfy) and `GameTreeSpec` (game_tree_spec.dfy);
- `Patterns` (pattern.dfy) and `LicensePlates` (license_plate.dfy).

Boards are compared with `Boards.Equivalent` rather than `==`, because `Board.remove` writes a
`new Empty()` whose remembered position is the default (0, 0) rather than the cell it sits in
(5-ConnectFour/Source/code/Board.java:99). Nothing in the engine reads an Empty's position.
So `undo` after `place` restores the board exactly except for that remembered position.
Everything else is equal: heights, count, stack, line handler, and the tag in every cell.

## Model

| member | source | states |
|---|---|---|
| Pieces.SideOf | 5-ConnectFour/Source/code/Line.java:24-27 | a piece is counted for player one exactly when its tag is "P1", and for player two otherwise |
| Pieces.Next | 5-ConnectFour/Source/code/Player1.java:12-14 | after a P1 piece comes a fresh P2 piece at (0, 0), and the reverse; Empty and OutOfBounds return themselves |
| Pieces.NextAlternates | 5-ConnectFour/Source/code/Player2.java:11-13 | turn order alternates between the two players and returns to the start after two steps; `next` is a fixed point on Empty and OutOfBounds |
| Pieces.SetPosition | 5-ConnectFour/Source/code/Player1.java:17-20 | setting a position never changes the kind of piece; on OutOfBounds it has no effect |
| Pieces.TagIdentifiesVariant | 5-ConnectFour/Source/code/Piece.java:27-28 | two pieces have the same tag exactly when they are the same kind, so dispatching on the tag is dispatching on the kind |
| Pieces.PositionRoundTrip | 5-ConnectFour/Source/code/Piece.java:13-25 | after setPosition(c, r), getCol and getRow return c and r for every kind except OutOfBounds, which always answers -1 |
| Pieces.SetPositionOverwrites | 5-ConnectFour/Source/code/Empty.java:18-21 | a second setPosition overrides the first, and the piece keeps its kind and side |
| Lines.NewLine | 5-ConnectFour/Source/code/Line.java:14-17 | a new line has no pieces, both values 0, and both open flags 1 |
| Lines.Add | 5-ConnectFour/Source/code/Line.java:23-28 | add raises the count of the piece's side by one, leaves the other side alone, and answers true exactly when that count becomes 4 |
| Lines.Remove | 5-ConnectFour/Source/code/Line.java:33-38 | remove lowers the count of the piece's side by one and leaves the other side alone |
| Lines.AddRemoveRoundTrip | 5-ConnectFour/Source/code/Line.java:23-38 | remove after add gives back the line, and so does add after remove |
| Lines.NonP1CountsAsP2 | 5-ConnectFour/Source/code/Line.java:24-37 | add and remove treat every piece whose tag is not "P1" exactly like a player-two piece |
| Lines.ScoreFacts | 5-ConnectFour/Source/code/Line.java:43-71 | each value is the player's own count, or 0 once the opponent has a piece in the line; each open flag is 0 or 1, and is 1 exactly when the opponent has no piece there; a positive value implies an open line |
| Lines.ScoreBounds | 5-ConnectFour/Source/code/Line.java:59-71 | with 0 to 4 pieces per side the values are within 0..4 and the flags within 0..1; a line is open for both players exactly when it is empty |
| Lines.AddShiftsScore | 5-ConnectFour/Source/code/Line.java:23-28 | adding a piece keeps the placer's open flag, never raises the opponent's flag or value, and never lowers the placer's value |
| LineIndex.CellsDistinct | 5-ConnectFour/Source/code/LineHandler.java:145-161 | the four cells a line registers in are pairwise different |
| LineIndex.FitsInGrid | 5-ConnectFour/Source/code/LineHandler.java:129-136 | every line the scan creates lies wholly on the grid |
| LineIndex.StartLinesMember | 5-ConnectFour/Source/code/LineHandler.java:129-136 | from a start cell the scan creates a line in a direction exactly when the Java guard for that direction holds |
| LineIndex.StartLinesDistinct | 5-ConnectFour/Source/code/LineHandler.java:129-136 | no start cell creates the same line twice |
| LineIndex.ScanSound | 5-ConnectFour/Source/code/LineHandler.java:127-138 | every line the scan creates from a cell onwards fits on the grid and starts at or after that cell |
| LineIndex.ScanComplete | 5-ConnectFour/Source/code/LineHandler.java:127-138 | every line that fits and starts at or after a cell is created by the scan from that cell onwards |
| LineIndex.ScanMember | 5-ConnectFour/Source/code/LineHandler.java:127-138 | a line is created by the scan from a cell onwards exactly when it fits and starts at or after that cell |
| LineIndex.ScanDistinct | 5-ConnectFour/Source/code/LineHandler.java:127-138 | the scan never creates the same line twice |
| LineIndex.AllLinesSpec | 5-ConnectFour/Source/code/LineHandler.java:120-138 | the lines created are exactly those that fit on the grid, one per start cell and direction, each once |
| LineIndex.StandardLineCount | 5-ConnectFour/Source/code/LineHandler.java:127-138 | the standard 7 x 6 board has 69 lines |
| LineIndex.LinesThroughMember | 5-ConnectFour/Source/code/LineHandler.java:141-161 | a cell's list after n lines holds exactly the numbers of those lines that pass through the cell |
| LineIndex.LinesThroughDecreasing | 5-ConnectFour/Source/code/LineHandler.java:141-161 | the list is strictly decreasing because each new line is pushed on its front, so it has no repeats |
| LineIndex.CellLinesSpec | 5-ConnectFour/Source/code/LineHandler.java:141-165 | each cell's list names exactly the lines whose four cells include it, newest first and each once; cells off the grid have no lines |
| LineHandlers.MakeLine | 5-ConnectFour/Source/code/LineHandler.java:141-144 | making a line appends an empty line and adds that line's score (open for both players) to the totals |
| LineHandlers.MakeLinesSpec | 5-ConnectFour/Source/code/LineHandler.java:141-144 | creating n lines appends n empty lines and keeps the totals equal to the sums over all lines |
| LineHandlers.NewHandlerSpec | 5-ConnectFour/Source/code/LineHandler.java:29-38 | a new handler holds one empty line per line of the grid; both opportunity totals equal the number of lines, and both value totals are 0 |
| LineHandlers.PassAt | 5-ConnectFour/Source/code/LineHandler.java:61-69 | the first pass changes each line through the cell once, by the one piece, and no other line |
| LineHandlers.PassBefore | 5-ConnectFour/Source/code/LineHandler.java:61-65 | the "old" sums are taken over the lines through the cell before any of them changes |
| LineHandlers.PassTotal | 5-ConnectFour/Source/code/LineHandler.java:61-79 | the change in the sum over all lines equals the change in the sum over the cell's lines |
| LineHandlers.PassWin | 5-ConnectFour/Source/code/LineHandler.java:61-69 | the win flag is raised exactly when the piece is added and some line through the cell held three of its side |
| LineHandlers.UpdateAt | 5-ConnectFour/Source/code/LineHandler.java:100-107 | after place or remove, exactly the lines through the cell have changed, each by the one piece |
| LineHandlers.UpdateConsistent | 5-ConnectFour/Source/code/LineHandler.java:76-79 | updating the totals by differences keeps each total equal to the sum over all lines, for place and remove alike |
| LineHandlers.PlaceWin | 5-ConnectFour/Source/code/LineHandler.java:48-80 | place reports a win exactly when a line through the cell held three pieces of the placer's side |
| LineHandlers.UpdateUndo | 5-ConnectFour/Source/code/LineHandler.java:89-118 | the opposite update undoes an update: lines and totals are restored |
| LineHandlers.PlaceRemoveRoundTrip | 5-ConnectFour/Source/code/LineHandler.java:48-118 | remove after place restores the handler exactly, and so does place after remove |
| LineHandlers.PlaceShiftsTotals | 5-ConnectFour/Source/code/LineHandler.java:48-79 | a P1 placement keeps oppsP1, never raises oppsP2 or valueP2, and never lowers valueP1; the mirror holds for P2 |
| Boards.PieceAt | 5-ConnectFour/Source/code/Board.java:115-119 | pieceAt answers OutOfBounds for every cell off the board, and on the board answers the piece the grid holds there |
| Boards.Place | 5-ConnectFour/Source/code/Board.java:82-93 | placing keeps the board's shape and dimensions |
| Boards.Undo | 5-ConnectFour/Source/code/Board.java:95-109 | undoing keeps the board's shape and dimensions |
| BoardProperties.NewBoardSpec | 5-ConnectFour/Source/code/Board.java:30-49 | a new board has an Empty in every cell remembering that cell, every height 0, count 0, is not won, and has a Player2 as its last piece |
| BoardProperties.NewBoardInv | 5-ConnectFour/Source/code/Board.java:30-40 | a new board satisfies the board invariant: shape, stacking, count = sum of heights, totals = sums over lines, line counts = pieces in their cells |
| BoardProperties.NewBoardRender | 5-ConnectFour/Source/code/Board.java:136-146 | a new board renders as `rows` lines of `cols` copies of "__ " |
| BoardProperties.PlaceFull | 5-ConnectFour/Source/code/Board.java:82-84 | placing in a full column answers false and changes nothing |
| BoardProperties.PlaceSpec | 5-ConnectFour/Source/code/Board.java:85-92 | placing in a column that is not full answers true; the piece lands at row = old height and remembers that cell; the stack is the old stack with that piece pushed on top; that height and the count rise by one; no other cell changes; the board is won afterwards exactly when it was already won or the piece completed a line |
| BoardProperties.UndoAfterPlace | 5-ConnectFour/Source/code/Board.java:95-109 | undo after place gives back the board with the won flag cleared; the handler is exactly equal, and the cells are equal up to an Empty's remembered position |
| BoardProperties.UndoSentinel | 5-ConnectFour/Source/code/Board.java:95-109 | undo does not guard the sentinel: a board whose stack holds only the Player2 at (0, 0) can be undone, which lowers column 0's height and the count by one, empties the stack and clears won |
| BoardProperties.UndoNewBoard | 5-ConnectFour/Source/code/Board.java:95-109 | undoing a new board pops the Player2 sentinel: column 0's height and the count become -1 and the stack is empty, as in Java |
| BoardProperties.UndoAfterPlaceRender | 5-ConnectFour/Source/code/Board.java:136-146 | undo after place leaves the rendered board as it was |
| BoardProperties.EquivalentRender | 5-ConnectFour/Source/code/Board.java:136-146 | boards that differ only in Empty positions render the same |
| BoardProperties.EquivalentIsEquivalence | 5-ConnectFour/Source/code/Board.java:95-102 | being the same board up to Empty positions is reflexive, symmetric and transitive |
| BoardProperties.EquivalentQueries | 5-ConnectFour/Source/code/Board.java:53-131 | isFull, fullBoard, gameWon, lastPiece, evaluate and the tag of every pieceAt agree on such boards |
| BoardProperties.EquivalentPlace | 5-ConnectFour/Source/code/Board.java:82-93 | placing the same piece in the same column of such boards gives the same answer and again such boards |
| BoardProperties.EquivalentUndo | 5-ConnectFour/Source/code/Board.java:95-109 | undoing such boards gives again such boards |
| BoardInvariant.HoldsAfterPlace | 5-ConnectFour/Source/code/Board.java:85-88 | after placing, the landing cell holds the piece's side and every other cell is unchanged |
| BoardInvariant.OccupancyAfterPlace | 5-ConnectFour/Source/code/Board.java:85-90 | a line's count of a side rises by one exactly when the line passes through the landing cell and the side is the placer's |
| BoardInvariant.LinesMatchAfterPlace | 5-ConnectFour/Source/code/Board.java:85-90 | after placing, each line's counters are still the numbers of each side's pieces in its four cells |
| BoardInvariant.ConsistentAfterPlace | 5-ConnectFour/Source/code/Board.java:90-91 | after placing, the handler's totals still equal the sums over all lines |
| BoardInvariant.PlaceInv | 5-ConnectFour/Source/code/Board.java:82-93 | placing a player's piece in a column that is not full succeeds and keeps the board invariant |
| BoardInvariant.UndoInv | 5-ConnectFour/Source/code/Board.java:95-109 | taking back that piece gives a board that keeps the invariant |
| BoardInvariant.InvEquivalent | 5-ConnectFour/Source/code/Board.java:99 | the invariant does not depend on an Empty's remembered position |
| BoardInvariant.CountBounds | 5-ConnectFour/Source/code/Board.java:129-131 | the count is between 0 and rows x cols, and fullBoard holds exactly when every column isFull |
| BoardInvariant.OpenColumn | 5-ConnectFour/Source/code/Board.java:72-74 | a board that is not full has a column that is not full |
| BoardInvariant.CellsOnBoard | 5-ConnectFour/Source/code/Board.java:115-119 | every cell on the board holds a player or an Empty, never OutOfBounds |
| BoardInvariant.LineCounts | 5-ConnectFour/Source/code/Line.java:23-37 | on every reachable board each line holds between 0 and 4 pieces of each side |
| BoardInvariant.TotalBounds | 5-ConnectFour/Source/code/LineHandler.java:169-189 | each opportunity total is between 0 and the number of lines, and each value total is between 0 and four times the number of lines |
| BoardInvariant.HeuristicBetween | 5-ConnectFour/Source/code/Board.java:157-160 | with totals in those bounds and few enough lines, 10000 x (oppsP1 - oppsP2) + (valueP1 - valueP2) lies strictly between the two sentinels |
| BoardInvariant.StandardFits | 5-ConnectFour/Source/code/Board.java:22-24 | the standard 7 x 6 board has few enough lines for that bound |
| BoardInvariant.EvaluateRange | 5-ConnectFour/Source/code/Board.java:156-161 | a board that is not won evaluates to the heuristic, which never equals either sentinel |
| BoardInvariant.EvaluateWon | 5-ConnectFour/Source/code/Board.java:151-155 | a won board evaluates to P1_WIN when the last piece is P1 and to P2_WIN when it is P2 |
| GameTree.ChildPiece | 5-ConnectFour/Source/code/GTN.java:80-83 | a child places a Player2 when the last piece is "P1" and a Player1 otherwise |
| GameTree.StartValue | 5-ConnectFour/Source/code/GTN.java:30-39 | a node starts from P1_WIN when the last piece is "P1" and from P2_WIN otherwise |
| GameTree.Search | 5-ConnectFour/Source/code/GTN.java:23-44 | a terminal node (level = depth, last mover won, or full board) reports the board's evaluation with move -1; a node reports either no move or a column that is on the board and not full; the board comes back as it was |
| GameTree.Choose | 5-ConnectFour/Source/code/GTN.java:53-72 | at even levels a child replaces the best when its value is at most the best (ties to the later column); at odd levels when it is at least the best; the scan stops exactly when the new best is the sure win of the side to move |
| GameTree.FindBest | 5-ConnectFour/Source/code/GTN.java:47-75 | the column scan returns the board as it was, and a move that is the starting one or a column at or after the current one that is not full |
| GameTree.TryColumn | 5-ConnectFour/Source/code/GTN.java:52-73 | trying a column yields the old best or that column, and hands back the board as it was (undo is matched on the early-exit path too) |
| GameTree.MakeChild | 5-ConnectFour/Source/code/GTN.java:77-86 | the child is built on the board with the next piece placed in the column, and hands back that board (up to Empty positions) |
| GameTree.ExpandReady | 5-ConnectFour/Source/code/GTN.java:40-41 | a node that expands is not won and has room left, which is what makes the recursion end |
| GameTree.ChildReady | 5-ConnectFour/Source/code/GTN.java:77-84 | a child board keeps the invariant and has one cell less room |
| GameTree.UndoChild | 5-ConnectFour/Source/code/GTN.java:58-73 | undoing the child's piece gives back the parent board, which keeps the invariant |
| GameTreeSpec.SearchAgrees | 5-ConnectFour/Source/code/GTN.java:23-75 | the value and move reported by the search on the shared board equal the reference minimax, which uses a board per child |
| GameTreeSpec.FindBestAgrees | 5-ConnectFour/Source/code/GTN.java:47-75 | the column scan from any column equals the reference fold over the children from that column |
| GameTreeSpec.SkipColumnAgrees | 5-ConnectFour/Source/code/GTN.java:49-51 | a full column is skipped by both |
| GameTreeSpec.TryColumnAgrees | 5-ConnectFour/Source/code/GTN.java:52-73 | a column that is not full is offered with the same value to the same step by both |
| GameTreeSpec.TryAgrees | 5-ConnectFour/Source/code/GTN.java:52-72 | the child built on the shared board has the reference child's value, so the step gives the same best and the same stop |
| GameTreeSpec.OpenSpec | 5-ConnectFour/Source/code/GTN.java:49-51 | the columns tried are exactly the ones that are not full, each once, in increasing order |
| GameTreeSpec.ChildrenLength | 5-ConnectFour/Source/code/GTN.java:49-52 | there is one child per column that is not full |
| GameTreeSpec.ChildrenOpen | 5-ConnectFour/Source/code/GTN.java:49-52 | the i-th child is for the i-th column that is not full |
| GameTreeSpec.ChildrenValues | 5-ConnectFour/Source/code/GTN.java:77-85 | each child's column is on the board and not full, and its value is that child's reference value |
| GameTreeSpec.ChildrenCons | 5-ConnectFour/Source/code/GTN.java:49-52 | at a column that is not full, the children start with that column's child |
| GameTreeSpec.Explored | 5-ConnectFour/Source/code/GTN.java:57-60 | the scan looks at the children up to and including the first sure win, and no further |
| GameTreeSpec.ScanPicks | 5-ConnectFour/Source/code/GTN.java:53-72 | the best is the start or one of the children |
| GameTreeSpec.ScanMinBound | 5-ConnectFour/Source/code/GTN.java:53-56 | at even levels the value is at most the start and at most every child looked at: the minimum |
| GameTreeSpec.ScanMinKeeps | 5-ConnectFour/Source/code/GTN.java:53-56 | at even levels, when every child looked at is above the start, the start is kept |
| GameTreeSpec.ScanMinLast | 5-ConnectFour/Source/code/GTN.java:53-60 | at even levels, when some child reaches the start, the result is a child looked at, with that child's column and value |
| GameTreeSpec.ScanMaxBound | 5-ConnectFour/Source/code/GTN.java:63-66 | at odd levels the value is at least the start and at least every child looked at: the maximum |
| GameTreeSpec.ScanMaxKeeps | 5-ConnectFour/Source/code/GTN.java:63-66 | at odd levels, when every child looked at is below the start, the start is kept |
| GameTreeSpec.ScanMaxLast | 5-ConnectFour/Source/code/GTN.java:63-70 | at odd levels, when some child reaches the start, the result is a child looked at, with that child's column and value |
| GameTreeSpec.SearchScans | 5-ConnectFour/Source/code/GTN.java:40-41 | an expanding node reports the scan of its children from its start value |
| GameTreeSpec.ChildSearch | 5-ConnectFour/Source/code/GTN.java:77-85 | a child's reference value is what the search reports one level down on the board with the next piece placed |
| GameTreeSpec.ValueRange | 5-ConnectFour/Source/code/GTN.java:8-9 | every node's value lies between P2_WIN and P1_WIN |
| GameTreeSpec.ChildrenRange | 5-ConnectFour/Source/code/GTN.java:52-56 | every child's value lies between P2_WIN and P1_WIN |
| GameTreeSpec.RootMove | 5-ConnectFour/Source/code/GTN.java:40-56 | called as the interface calls it (level 0, last piece P1, not won, not full, depth not 0), the best move is a column on the board that is not full |
| Patterns.EmptyPattern | 3-LicensePlate/Source/code/Pattern.java:14-17 | the empty pattern yields one plate and has the empty string |
| Patterns.WeightConcat | 3-LicensePlate/Source/code/LicensePlate.java:199 | appending characters multiplies the plate count by what they yield |
| LicensePlates.LesserOf | 3-LicensePlate/Source/code/LicensePlate.java:217-221 | lesserOf answers b exactly when a's total is larger, so a tie answers a; the answer's total is at most both |
| LicensePlates.Symbol | 3-LicensePlate/Source/code/LicensePlate.java:183-197 | weights 10, 26 and 36 add one character whose weight is that number; any other weight (the first call) adds none |
| LicensePlates.AddToPattern | 3-LicensePlate/Source/code/LicensePlate.java:182-209 | the result reaches the target, extends the pattern with allowed characters, and has the extended total times the weight of what was added |
| LicensePlates.CreatePattern | 3-LicensePlate/Source/code/LicensePlate.java:176-180 | the result reaches the target, its total is the product of its characters' weights, its characters are allowed, and a target up to ten gives "#" with total 10 |
| LicensePlates.AddMinimal | 3-LicensePlate/Source/code/LicensePlate.java:199-208 | no allowed continuation that reaches the target yields fewer plates than the search's result |
| LicensePlates.AddChoice | 3-LicensePlate/Source/code/LicensePlate.java:200-208 | the result is the extended pattern when it reaches the target, and otherwise the result of the letter, digit or (if allowed) alphanumeric branch |
| LicensePlates.AddPrefixes | 3-LicensePlate/Source/code/LicensePlate.java:199-204 | every prefix the search passed through on the way to the result falls short of the target |
| LicensePlates.CreatePatternOptimal | 3-LicensePlate/Source/code/LicensePlate.java:176-209 | no non-empty allowed pattern that reaches the target yields fewer plates than createPattern's |
| LicensePlates.CreatePatternPrefixes | 3-LicensePlate/Source/code/LicensePlate.java:179 | above ten, every proper prefix of the chosen pattern falls short of the target |
| LicensePlates.AlphanumericNeverWorse | 3-LicensePlate/Source/code/LicensePlate.java:206-207 | allowing alphanumerics never gives a larger total |
| LicensePlates.Format | 3-LicensePlate/Source/code/LicensePlate.java:227-242 | format(0) is "0", and format(n) is n's decimal digits grouped in threes from the right |
| LicensePlates.FormatStep | 3-LicensePlate/Source/code/LicensePlate.java:233-239 | each turn of the loop puts a comma in front exactly when three digits have been written since the last one, then the next digit |
| LicensePlates.DigitsRoundTrip | 3-LicensePlate/Source/code/LicensePlate.java:237-239 | the digits produced are decimal digits that denote n, with a leading zero only for zero |
| LicensePlates.GroupShort | 3-LicensePlate/Source/code/LicensePlate.java:233-236 | up to three digits get no comma |
| LicensePlates.GroupRight | 3-LicensePlate/Source/code/LicensePlate.java:233-236 | past three digits, the last three are split off by a comma and the rest is grouped the same way, so the leading group has 1 to 3 digits |
| LicensePlates.GroupLength | 3-LicensePlate/Source/code/LicensePlate.java:233-236 | k digits get (k - 1) / 3 commas |
| LicensePlates.UngroupGroup | 3-LicensePlate/Source/code/LicensePlate.java:233-237 | grouping only inserts commas: taking them out gives the digits back |
| LicensePlates.FormatRoundTrip | 3-LicensePlate/Source/code/LicensePlate.java:227-242 | without its commas, format(n) is a decimal numeral whose value is n |

## Left out

- The Swing user interfaces are not modelled: 5-ConnectFour/Source/gui/GUI.java,
  DrawingPane.java, and the LicensePlate constructor, listeners, `refreshValues` and
  `setConstraints`. They are event and layout plumbing around the modelled core.
- 5-ConnectFour/Source/code/Tester.java is not part of this model. Its expected picture of a
  new board is stated by `BoardProperties.NewBoardRender`.
- Java object identity and `LinkedList` mechanics are left out. The move stack is a sequence
  with its top at the end. A cell's list of lines is computed from the grid's dimensions.
- `Boards.Undo` and `BoardProperties.UndoAfterPlace` restore the board only up to the (0, 0)
  position of the fresh `Empty` that `remove` writes back. This is what the Java code does;
  no code reads that position.
- BoardInvariant.EvaluateRange: Java `int` overflow of the heuristic is not modelled. The
  contract is stated for grids with few enough lines (`HeuristicFits`, which holds for the
  standard 7 x 6 board).
- GameTreeSpec.ValueRange: this bound carries the same `HeuristicFits` requirement.
- GameTreeSpec.SearchAgrees: the reference minimax is defined on boards with a shape, a last
  piece and consistent heights (`Playable`). It is compared with the search on boards that
  keep the full board invariant.
- GameTree.Search: termination is shown by the room left on the board, not by level <= depth.
  A level above the depth is therefore also modelled: it expands until the board is won or
  full, as the Java code does.
- Out-of-range columns for `place` and `isFull` are caller misuse, excluded by the precondition
  `0 <= col < cols`.
- Boards.Undo: undoing with only the sentinel on the stack is accepted and behaves as in Java. The
  sentinel's column height and the count drop by one (to -1 on a new board), and the stack
  becomes empty (`UndoSentinel`, `UndoNewBoard`). `CanUndo`
  excludes only a top piece whose position is off the grid, where Java would index the arrays
  out of bounds. That happens after placing an OutOfBounds, whose position stays (-1, -1).
- Boards.Place: placing an Empty or OutOfBounds piece is accepted and behaves as in Java. The
  lines count it for player two. Only the invariant lemmas (`PlaceInv`, `UndoInv`) and the
  game-tree helpers require a player's piece (`IsPlayer`).
- LicensePlates.AddToPattern: Java `long` arithmetic is taken as unbounded, so overflow of the
  product is not modelled.
- LicensePlates.Format: negative n is excluded (n >= 0), since Java's `%` yields negative
  digits there. The refresh code only formats non-negative numbers: totals, and the excess
  total - target, which `CreatePattern` shows is not negative.
- The running-time claims (constant-time win check and evaluation) are not modelled.
