# Proofs about the ei widget library and its example games

This project models the logic of a small C widget library and of the three games shipped with it, and
proves properties of that logic in Dafny 4.11. Code that changes things in place is modelled by classes,
arrays and linked objects with methods; each such method is proved against a specification function, and
the results are then proved about that function.

## What is modelled

**2048** (`tests/two048.c`). `SlideLine` is the slide of one line; `SlideBoard` the four scans as one
indexed family of lines on a board of any width and height; `Game2048` spawning, the loss test and whole
games; `Two048` the class that overwrites the board in place. Main results: the in-place scans refine one
pure slide-and-merge, the dry run answers what the move would do, the sum of the tiles is bounded in every
reachable state, every game ends, and the loss test is characterised exactly.

**Minesweeper** (`tests/minesweeper.c`). `MineField` defines flood regions by walks; `MineGame` the states
of a game and what every run of clicks keeps; `Minesweeper` the class with its nested loops and its
recursive reveal. Main results: a reveal is exactly the reachable region, counters are true in every
state in play, and the order of safe clicks does not matter.

**Sliding puzzle** (`tests/puzzle.c`). `Parity` is about permutations; `PuzzleBoard` the board as a
permutation; `Puzzle` the array of tile pointers with a position in each tile. Main result: the parity of
the permutation is the parity of the blank's distance from home, in every run.

**Widgets** (`src/`). `Geometry` and `Invalidation` are the rectangle algebra and the list of invalidated
rectangles; `Pixels` and `Surfaces` the colour arithmetic and the pixel loops; `Picture`, `WidgetTree` and
`Drawing` the clipped drawing into the pick surface, with its calls of the placer, and the search by pixel
value; `Hierarchy` and `Destroying` the linked lists of children; `ChildLists` runs of creates and destroys on
those lists; `Placement`, `Layout` and `Placer` the placer and its cascade; `Toplevels` the creation of a
toplevel with its buttons; `Removal` the destruction of a widget. `Repainting`, `MovedWidgets` and
`DestroyedWidgets` compare what a placement or a destroy repaints with what it lists; `Sessions` are runs of
creates, placements, destroys and redraws on the tree of widgets, and `SessionSteps` the same on the widgets
themselves. Main results: picking returns the topmost widget; redrawing clipped rectangles gives what a full
drawing gives, and with close buttons it is characterised, pixel by pixel, when it does; incremental layout
equals layout from scratch exactly when the placed tree is ready; in every session whose commands list all
they repaint, every wrong pixel is listed, every managed widget is where it belongs, and each redraw makes the
pick surface show the tree; frames that keep within their place list all that a move or a destroy repaints,
and for toplevels and buttons it is characterised when they do; every run of creates and destroys that spares
the resize buttons goes well.

`RowMajor` and `Powers` hold the arithmetic that the other modules share.

## What the code does that one may not expect

Each of these is a theorem below, with the code as it is.

- The random draw of 2048 can be exactly 1, and then no tile is placed. Games are bounded only up to the
  number of such draws, and on two cells or more they can go on for ever with them
  (`Game2048.EveryGameEnds`, `Game2048.MissedDrawsNeverEnd`, `Game2048.OneCellNeverMoves`).
- An empty 2048 board also passes for lost (`Game2048.LostExactly`).
- Stepping on a mine can announce "You won!", because the mine is counted twice and the victory test runs
  after the defeat. It does so exactly when the hidden safe cells are one more than the mines
  (`MineGame.VictoryIsAnnouncedExactly`, `MineGame.SteppingOnAMineCanWin`).
- Destroying a widget calls the destructor of that widget and, below it, of first children only
  (`Destroying.NotifiedExactly`).
- Creating a widget in a resizable toplevel looks for a resize button behind the first child, and follows a
  null pointer if there is none. Runs that never destroy a resize button by itself are safe; destroying one
  and then creating two widgets is not (`ChildLists.EveryRunEndsWithResize`,
  `ChildLists.CreateKeepsExactly`, `ChildLists.DestroyKeepsExactly`, `ChildLists.DestroyedResizeCrashes`).
- Listing an area clips the caller's own rectangle. A frame that does not fit in the window is thereby
  taken out of its layout; with unchanged borders, only then (`Layout.ClippingUnsettles`,
  `Layout.IncrementalIsFull`). The buttons of a new toplevel are placed while it is nowhere, so both have their
  content clipped to nothing until the toplevel is opened (`Toplevels.CreateToplevel`, `Toplevels.OpeningIsReady`).
- A toplevel moved up by three pixels or more leaves the last row of its old frame on the screen, unless its
  children list something that far down, while one moved down by a pixel is repainted completely; which
  moves are is characterised by rectangles (`MovedWidgets.LoneToplevelsExactly`,
  `MovedWidgets.ToplevelsListedIf`, `MovedWidgets.ToplevelMovedUp`).
- A button with a border moved to the right by three pixels or more does not show its new right border, while
  one moved by two pixels or less is repainted completely; which moves are is characterised by its polygon
  and two rectangles (`MovedWidgets.LoneButtonsExactly`, `MovedWidgets.ButtonMovedRight`,
  `MovedWidgets.ButtonNudged`).
- Destroying a toplevel lists its screen location (`src/ei_widget.c:626`), which is 30 pixels and a border
  shorter than its frame. The close button invalidates the frame first, but `tests/two048.c:498` destroys the
  toplevel directly, and the last rows of its frame stay on the screen
  (`DestroyedWidgets.LoneToplevelsByDestroyingExactly`, `DestroyedWidgets.ToplevelDestroyed`,
  `DestroyedWidgets.GameDestroyed`).
- A close button is not clipped by the redrawn rectangle, but by the content of its grandparent, and it is drawn
  only if the redraw gets to the content of its toplevel. So a redraw elsewhere can paint it over widgets above
  it, and a redraw of the top bar erases it (`Picture.RedrawExactly`, `Picture.ShowsThroughExample`,
  `Picture.ErasedExample`).
- A child does not follow its parent rigidly when a fractional coordinate changes sides of zero, because
  coordinates are truncated towards zero (`Placement.ChildMovesAlong`).
- A blended channel that rises towards the source can stop below it (`Pixels.BlendStops`).

## Model

| member | source | states |
|---|---|---|
| `RowMajor.CoordinatesAreDivMod` | tests/minesweeper.c:67-75 | The position of an index is its remainder and quotient by the width. |
| `RowMajor.IndexInverse` | tests/puzzle.c:57-60 | Positions on the board have distinct indices on the board, from which they can be read back. |
| `SlideLine.MergeKeepsTotal` | tests/two048.c:404-411 | Merging keeps the sum of 2^v over the tiles, and makes tiles of tiles. |
| `SlideLine.MergeCuts` | tests/two048.c:404-411 | The merge is greedy and keeps the order: it cuts the tiles into consecutive blocks, a block of two equal tiles becomes one of the next exponent, a block of one is kept and differs from the tile behind it; no tile merges twice. |
| `SlideLine.MergeIsTheOnlyCut` | tests/two048.c:404-411 | That cutting rule has only one outcome, so it defines the merge. |
| `SlideLine.SlideKeepsTotal` | tests/two048.c:386-425 | Sliding a line keeps the sum of its tiles and the validity of its cells. |
| `SlideLine.SlideChanges` | tests/two048.c:392-411 | A line changes if and only if a tile stands behind an empty cell (`space_armed`) or two tiles merge: what the scan watches decides what the slide does. |
| `SlideLine.ChangedLineHasRoom` | tests/two048.c:417-424 | A line that changes ends with an empty cell. |
| `SlideBoard.Scan.CellIsScanned` | tests/two048.c:319-322 | The index `t*t_mul + s*s_mul` computed from the direction settings is the cell of line `t` at the scan position. |
| `SlideBoard.Scan.Positions` | tests/two048.c:392 | The scan from `start` to `end` by `incr` visits the positions of one line, and meets `end` exactly after its length. |
| `SlideBoard.Scan.CellInverse` | tests/two048.c:319-322 | Distinct scan positions visit distinct cells of the board: line and step can be read back from the index. |
| `SlideBoard.Scan.IndexIsCell` | tests/two048.c:319-322 | Every cell of the board is visited, so each direction is a bijection onto the board. |
| `SlideBoard.Scan.LinesOfSlid` | tests/two048.c:386-425 | In each direction, every line of the moved board is the slide of that line of the old board. |
| `SlideBoard.Scan.SlidChanges` | tests/two048.c:386-431 | The board stays as it is if and only if none of its lines moves. |
| `SlideBoard.Scan.TotalIsLineTotals` | tests/two048.c:386-425 | The sum over the board is the sum over the lines of any direction. |
| `SlideBoard.Scan.SlidKeepsTotal` | tests/two048.c:370-440 | A move keeps the sum of the tiles on the board. |
| `SlideBoard.Scan.EffectiveMoveLeavesRoom` | tests/two048.c:432-436 | A move that changes the board leaves an empty cell for the new tile. |
| `SlideBoard.RightIsMirroredLeft` | tests/two048.c:319-322 | Moving right is moving left on the mirrored board. |
| `SlideBoard.VerticalIsTransposed` | tests/two048.c:319-322 | Moving up or down is moving left or right on the transposed board. |
| `SlideBoard.KeysPush` | tests/two048.c:319-322 | By columns and rows of the board: after the keys 0, 1, 2 and 3 no tile has an empty cell above it, below it, to its right and to its left, and each column or row, read from that end, is the slide of the old one, so tiles merge from that end. |
| `SlideBoard.PushedOneWay` | tests/two048.c:386-425 | Only one board is pushed so. |
| `SlideBoard.ThreeEqual` | tests/two048.c:404-411 | Of three equal tiles in a column or row, the two nearest the end that the key names become one tile at that end. |
| `Game2048.SpawnedTotal` | tests/two048.c:247-275 | With an empty cell and a draw below 1, a spawn adds 4 to the sum if the draw of the kind exceeds 0.8, and 2 otherwise; without, the board stays as it is. |
| `Game2048.SpawnsAt` | tests/two048.c:256-275 | The new tile takes the empty cell that has as many empty cells before it as the drawn share of all of them, without fractions; its exponent is 2 for a kind above 0.8, and 1 otherwise. |
| `Game2048.FirstTile` | tests/two048.c:291-337 | A new board has exactly one tile, or none if the first draw is exactly 1. |
| `Game2048.DigitsPerTile` | tests/two048.c:238-275 | The sum of k tiles is even and has at most k binary ones. |
| `Game2048.LostExactly` | tests/two048.c:279-286 | All four dry runs find no move if and only if the board is full without equal neighbours, or empty. |
| `Game2048.RunBound` | tests/two048.c:370-440 | On n cells, in every state of every game, the tiles sum to at most 2^(n+2) - 4. |
| `Game2048.RunExponents` | tests/two048.c:370-440 | No exponent on a reachable board exceeds n + 1. |
| `Game2048.RunGrows` | tests/two048.c:432-436 | Over any run, the sum has grown by at least 2 for every effective move that placed a tile. |
| `Game2048.EveryGameEnds` | tests/two048.c:370-440 | At most 2^(n+1) - 3 moves of a game are effective, apart from those whose draw is exactly 1. |
| `Game2048.MissedDrawsNeverEnd` | tests/two048.c:28-35 | With draws of exactly 1, a game on two cells or more makes as many effective moves as one likes, whatever its first tile. |
| `Game2048.OneCellNeverMoves` | tests/two048.c:370-440 | On a single cell no move is ever effective. |
| `Two048.Game.constructor` | tests/two048.c:291-337 | A new game has the settings that scan columns from the top and from the bottom, and rows from the right and from the left, for the codes 0 to 3, and a board that is empty but for one spawn. |
| `Two048.Game.ListTiles` | tests/two048.c:387-400 | The scan of one line lists its tiles in order, and reports a tile behind a space if and only if there is one. |
| `Two048.Game.MergeTiles` | tests/two048.c:402-411 | The merging loop writes the merge of the list, within the scratch array, and reports a merge if and only if there is an equal pair. |
| `Two048.Game.WriteLine` | tests/two048.c:417-424 | The updating loop rewrites exactly the cells of one line: the list, then spaces. |
| `Two048.Game.HandleDirKey` | tests/two048.c:370-440 | The move leaves the board pushed the way the key names (`SlideBoard.KeysPush`), with a spawn if that changed anything; the dry run, with its early exit, leaves the board and answers whether the move would change it. |
| `Two048.Game.AddTile` | tests/two048.c:238-287 | Adding a tile spawns at the drawn empty cell and reports a loss if and only if no direction can move. |
| `Two048.Game.PutAtRank` | tests/two048.c:267-275 | The loop writes the new tile at the empty cell of the drawn rank, and nowhere else. |
| `MineField.Field.CountExactly` | tests/minesweeper.c:229-244 | The count of a cell is the number of other mined cells at most one column and one row away. |
| `MineField.Field.FloodIsLeast` | tests/minesweeper.c:217-223 | A set that holds the start and is closed under going on from clear cells contains the whole flood: reachability by walks is the least such set. |
| `MineField.Field.FloodExtends` | tests/minesweeper.c:217-223 | A flood goes on from each of its clear cells to every unblocked neighbour. |
| `MineField.Field.ExploringStep` | tests/minesweeper.c:219-222 | Exploring one hidden neighbour, with everything revealed so far blocked, keeps the exploration inside the flood and closed. |
| `MineField.Field.ExploringEnds` | tests/minesweeper.c:199-224 | An exploration that has passed every neighbour has revealed exactly the flood. |
| `MineField.Field.FloodOnExplored` | tests/minesweeper.c:199-224 | On a board reached by safe clicks, what a further click adds is its flood on the untouched board. |
| `MineGame.CounterTest` | tests/minesweeper.c:110-112 | The counter test for victory is exact while no mine is revealed. |
| `MineGame.SafeClick` | tests/minesweeper.c:337-351 | A click on a hidden unflagged safe cell reveals exactly its flood, no mine and no flagged cell, and ends the game if and only if it reveals the last safe cell. |
| `MineGame.MineClick` | tests/minesweeper.c:180-211 | A click on a mine ends the game, and announces a defeat unless the double count meets the victory test. |
| `MineGame.VictoryIsAnnouncedExactly` | tests/minesweeper.c:346-349 | A click announces a victory if and only if it clears the board, or hits a mine while the hidden safe cells are one more than the mines. |
| `MineGame.SteppingOnAMineCanWin` | tests/minesweeper.c:346-349 | On four cells with one mine, two clicks, the second on the mine, announce a victory. |
| `MineGame.FlagClick` | tests/minesweeper.c:352-357 | A right click on a hidden cell turns the flag on it and no other, moves the counter the other way, keeps the game in play and reveals nothing; a second one gives the state back. On a revealed cell it does nothing. |
| `MineGame.EveryRun` | tests/minesweeper.c:337-360 | In every run of clicks the game is in play with true counters (revealed cells, flags plus `flag_count`, no mine revealed, no flag on a revealed cell) or it has ended. |
| `MineGame.SafeClicksReveal` | tests/minesweeper.c:199-224 | Safe clicks without flags reveal the union of the floods of the clicked cells. |
| `MineGame.ClickOrderDoesNotMatter` | tests/minesweeper.c:337-351 | Two sequences of safe clicks on the same cells end in the same state, whatever their order and repetition. |
| `Minesweeper.Map.constructor` | tests/minesweeper.c:295-311 | A new map has the asked number of mines, every count right, and is the new game. |
| `Minesweeper.PassedStep` | tests/minesweeper.c:240-243 | One step of the scan of nine cells passes its cell if that is a neighbour on the board, and nothing else. |
| `Minesweeper.Map.SetMineAtPos` | tests/minesweeper.c:229-244 | Placing a mine adds it and makes every count equal its mined neighbours again. |
| `Minesweeper.Map.PlaceMines` | tests/minesweeper.c:249-260 | Exactly `nb_mines` different cells are mined. |
| `Minesweeper.Map.RevealPositionNoCheck` | tests/minesweeper.c:157-165 | Revealing one cell adds it to the revealed cells and one to the counter, also when it was revealed before. |
| `Minesweeper.Map.Defeat` | tests/minesweeper.c:180-194 | Defeat reveals every mine, counting each once more, and ends the game. |
| `Minesweeper.Map.RevealAndExplore` | tests/minesweeper.c:199-224 | The recursive reveal leaves exactly the state that the flood defines, and terminates. |
| `Minesweeper.Map.CheckVictory` | tests/minesweeper.c:110-123 | The victory check ends the game if and only if its counters add up to the board. |
| `Minesweeper.Map.SwitchFlag` | tests/minesweeper.c:137-151 | Switching negates the flag of the cell, moves the counter the other way, and leaves every other cell alone. |
| `Minesweeper.Map.HandlePosEvent` | tests/minesweeper.c:337-360 | A press makes the click of the game, does nothing after its end, and tells whether it was used; a used right press switches the flag of the cell. |
| `Minesweeper.Map.ResetGame` | tests/minesweeper.c:266-289 | A reset leaves a new game with freshly placed mines. |
| `Parity.SwapFlipsParity` | tests/puzzle.c:84-87 | Exchanging any two entries changes the parity of the inversions. |
| `PuzzleBoard.PressKeepsParity` | tests/puzzle.c:72-95 | A press either does nothing, or flips both the parity of the permutation and that of the blank's distance from home. |
| `PuzzleBoard.RunParity` | tests/puzzle.c:72-95 | In every run of presses on any board, the permutation is odd if and only if the blank's distance from home is. |
| `PuzzleBoard.NoExchange` | tests/puzzle.c:72-95 | No run exchanges two tiles and leaves everything else at home. |
| `PuzzleBoard.PressUndone` | tests/puzzle.c:72-95 | Pressing the same tile again takes a slide back. |
| `PuzzleBoard.BesideExactly` | tests/puzzle.c:76-83 | A place is beside another if and only if the two are one step apart, across or down. |
| `Puzzle.Window.constructor` | tests/puzzle.c:140-170 | The window starts with every tile at its original place and the last place empty. |
| `Puzzle.Window.BoardIsValid` | tests/puzzle.c:57-70 | The array and the positions in the tiles, where they agree, describe a permutation of the tiles with one blank. |
| `Puzzle.Window.HandleTilePress` | tests/puzzle.c:72-95 | The pressed tile and the empty place exchange their places if and only if they are one step apart, across or down; every other tile stays, and array and tile positions keep agreeing. It is the press of the board. |
| `Puzzle.Window.TrySlide` | tests/puzzle.c:83-91 | A tile slides to a tried place if and only if that place is the blank. |
| `Geometry.IntersectionIsExact` | src/ei_calculations.c:41-54 | The intersection of two rectangles has exactly their common pixels. |
| `Geometry.RectCell.Normalize` | src/ei_calculations.c:57-67 | Normalising in place is intersecting with the window. |
| `Geometry.ClippedExactly` | src/ei_calculations.c:57-67 | Clipping to the window is idempotent, ends in the window, and changes nothing if and only if the rectangle lies in it. |
| `Geometry.AroundIsSmallest` | src/ei_application.c:362-371 | The merged rectangle is the smallest that contains both, by their edges. |
| `Invalidation.InvalidatedCovers` | src/ei_application.c:332-375 | An invalidation keeps every listed pixel and adds every window pixel of its rectangle, merged or not. |
| `Invalidation.MergesExactly` | src/ei_application.c:359-361 | A rectangle merges with the last one if and only if, in both directions, it starts before it by less than half the longer side of the two, truncated, if at all. |
| `Invalidation.OthersStay` | src/ei_application.c:345-375 | The rectangles before the last one stay; the last one stays with the new one behind it, or becomes the one around both. |
| `Invalidation.NothingIsLost` | src/ei_application.c:332-375 | After any sequence of invalidations, every window pixel of every rectangle is listed, and every listed rectangle lies in the window. |
| `Invalidation.RectList.Invalidate` | src/ei_application.c:332-375 | The linked list holds the specified rectangles afterwards, and the caller's rectangle is clipped. |
| `Invalidation.RectList.MergeLast` | src/ei_application.c:362-371 | Only the last rectangle grows, to the one around both. |
| `Pixels.DecodeUndoesMap` | src/ei_draw.c:34-54 | Reading the channels undoes mapping a colour, for any distinct channel indices, within 32 bits. |
| `Pixels.BlendIsExact` | src/ei_draw.c:129-134 | The truncated weighted mean is the integer quotient of (s*a + d*(256-a)) by 256, and a byte. |
| `Pixels.BlendApproaches` | src/ei_draw.c:129-134 | A blend moves a channel towards the source and not past it; alpha 255 comes within one level. |
| `Pixels.BlendsApproach` | src/ei_draw.c:129-134 | Over any number of blends the channel moves one way and stays between its ends. |
| `Pixels.BlendStops` | src/ei_draw.c:129-134 | A blend changes nothing if and only if the channel is less than one step below the source, or nothing is blended. |
| `Pixels.CopiedIsMixed` | src/ei_draw.c:125-136 | A copied pixel decodes, with alpha, to the means of source and destination weighted by the source's alpha out of 256, opaque; without, to the source colour; a surface without alpha keeps none. |
| `Pixels.TransparentKeeps` | src/ei_draw.c:129-134 | A source pixel with alpha 0 leaves the three channels that were there. |
| `Surfaces.Surface.Fill` | src/ei_draw.c:57-89 | Filling writes the colour to exactly the pixels of the rectangle. |
| `Surfaces.CopySurface` | src/ei_draw.c:92-145 | A copy writes exactly the destination rectangle, each pixel mixed, channel by channel, from the source pixel at the same offset and the old pixel; different sizes copy nothing and return 1. |
| `Surfaces.DrawText` | src/ei_draw.c:14-31 | Clipped text writes exactly the clipped rectangle, each pixel mixed, channel by channel, from the text pixel at its offset from `where` and the old pixel. |
| `Surfaces.DrawClippedText` | src/ei_draw.c:14-31 | Clipped text is unclipped text restricted to the clip, mixed in the same way. |
| `Picture.ShowsExactly` | src/ei_application.c:98-112 | A widget without a clip of its own shows at a pixel if and only if it and its ancestors are managed, its region has the pixel, and so do the window and every ancestor's content. |
| `Picture.TopmostIsLast` | src/ei_application.c:87-117 | The topmost widget at a pixel is the last in preorder that shows there. |
| `Picture.PaintedIsTopmost` | src/ei_application.c:87-117 | Drawing a forest under nested clips leaves at each pixel the value of the topmost widget, close buttons included. |
| `Picture.RedrawRefinesDraw` | src/ei_application.c:309-313 | Without close buttons, drawing under a clip changes no pixel outside, and gives each pixel inside its value in a full drawing. |
| `Picture.RedrawExactly` | src/ei_application.c:309-313 | For every forest whose widgets leave different values, close buttons included, every clip within the full rectangle and every old value: after a redraw that touches a pixel (its clip has it, or a widget shows there under the clip all the same) the pixel is right if and only if the widget that a full drawing shows there shows under the clip too, or none shows at all and the clip has the pixel; after any other redraw, if and only if it was right. |
| `Picture.ShowsInLarger` | src/ei_application.c:91-112 | What shows under a clip shows under any larger one, through every nested intersection. |
| `Picture.CloseButtonShowsThrough` | src/ei_draw_more.c:286-290 | A redraw elsewhere that gets to the content of a toplevel paints its close button over the widget that a full drawing shows above it. |
| `Picture.ShowsThroughExample` | src/ei_draw_more.c:286-290 | Such a redraw of ten pixels in a window of 640 by 480. |
| `Picture.CloseButtonErased` | src/ei_application.c:91-92 | A redraw whose rectangle has a negative intersection with the content of a toplevel fills the frame over the close button and does not paint the button again. |
| `Picture.ErasedExample` | src/ei_application.c:91-92 | Such a redraw of a part of the top bar. |
| `Picture.RedrawnListed` | src/ei_application.c:309-313 | After a list of clips, every listed pixel has its value in a full drawing, and every other its old one. |
| `Picture.RedrawnExactly` | src/ei_application.c:309-313 | With close buttons too, after a whole list of clips a pixel is right if and only if the last clip that touches it restores it so, or none touches it and it was right. |
| `WidgetTree.SamePixelExactly` | src/ei_widget.c:529-548 | Two identifiers leave the same pixel if and only if they agree modulo 2^24. |
| `WidgetTree.PickColorIsDigits` | src/ei_widget.c:533-548 | The channels of a pick colour are the digits of the identifier to the base 256. |
| `Drawing.DrawWidget` | src/ei_draw_more.c:284-331 | A toplevel's pick colour goes to exactly its frame inside the clip, that of a frame or button to its polygon inside the clip, and that of a close button to its polygon inside its grandparent's content; every other pixel keeps its value. |
| `Drawing.RunSettled` | src/ei_application.c:101-102 | Running the placer, while drawing, on a widget that is where it belongs changes no widget and lists nothing. |
| `Drawing.DrawWidgetChildren` | src/ei_application.c:87-117 | In a tree where every managed widget is where the placer puts it, the recursive drawing, which runs the placer on each child, paints what the forest of the children specifies and changes neither the widgets nor the list. |
| `Drawing.InitialDraw` | src/ei_application.c:120-138 | The first drawing of such a tree makes the pick surface show it. |
| `Drawing.RedrawInvalidated` | src/ei_application.c:302-328 | The redraw loop draws every listed rectangle of such a tree, the list not growing meanwhile, and empties the list. |
| `Drawing.Refresh` | src/ei_application.c:302-328 | In such a tree without close buttons, if the surface is right outside the list, it is right everywhere after the list is processed. |
| `Drawing.ListMakesRight` | src/ei_application.c:302-313 | With at most 2^24 widgets created, the condition of `Picture.RedrawnExactly` is exact for every list of rectangles in the window and every pixel of the window. |
| `Drawing.DrawnOnce` | src/ei_application.c:98-116 | The widgets drawn below a widget are descendants of it, each drawn once. |
| `Drawing.AllDrawn` | src/ei_application.c:98-116 | Every descendant of a widget is among them. |
| `Drawing.EntriesAreWidgets` | src/ei_application.c:98-116 | Each entry of the picture describes the widget at its place in drawing order, under the widgets between it and the root. |
| `Drawing.ShownExactly` | src/ei_application.c:98-116 | A widget that is no close button shows at a point if and only if it and every widget between it and the root are managed, its own pixels have the point, and so do the window and the contents of all those between. |
| `Drawing.PickRec` | src/ei_widget.c:665-688 | The recursive search returns the first widget with the pixel value. |
| `Drawing.FoundExactly` | src/ei_widget.c:665-688 | A search returns a widget with the value whenever the tree has one. |
| `Drawing.PickIsTopmost` | src/ei_widget.c:690-699 | With fewer than 2^24 widgets, picking in a surface that shows the tree returns the topmost widget at the point, or the root. |
| `Drawing.LastShownIsPicked` | src/ei_widget.c:690-699 | The last widget in drawing order that shows at a point is picked there. |
| `Drawing.CloseButtonIsPicked` | src/ei_draw_more.c:286-290 | A close button of a toplevel on the root is picked wherever its polygon lies in the content of the root and no later widget shows, also outside the content of the toplevel. |
| `Hierarchy.CreateWidget` | src/ei_widget.c:525-595 | Where the code does not run off the list, a new widget gets the next identifier and becomes the last child, except that in a resizable toplevel it goes before an only child, and before a last child that is its only resize button behind the first; every list keeps its pointers. |
| `Hierarchy.FindResize` | src/ei_widget.c:564-569 | The loop finds the first resize button behind the first child. |
| `ChildLists.EveryRunEndsWithResize` | src/ei_widget.c:551-663 | Every run of creates and destroys that spares the resize buttons goes well, and leaves the resize button of each resizable toplevel its last child. |
| `ChildLists.CreateKeepsExactly` | src/ei_widget.c:551-591 | After a create in a resizable toplevel, the next create finds a resize button if and only if there was not a single child, or that child was one. |
| `ChildLists.DestroyKeepsExactly` | src/ei_widget.c:638-656 | After a destroy in a resizable toplevel, the next create is safe if and only if at most one child remains, or a resize button other than the child that is then first. |
| `ChildLists.DestroyedResizeCrashes` | src/ei_widget.c:563-569 | Destroying a resize button by itself and creating two widgets in its toplevel runs off the list. |
| `Toplevels.PlacesAgree` | src/ei_widget.c:551-591 | The place of a new child and the demand on the list, by the pointers, are those of the abstract lists. |
| `Toplevels.CreateChild` | src/ei_widget.c:551-595 | A create makes the lists the abstract lists after a create. |
| `Toplevels.CreateToplevel` | src/ei_toplevelclass.c:260-304 | A new toplevel is nowhere yet, and has its close button, not clipped by it, and then its resize button as children, at (6, -21) and (-20, -20) with their contents clipped to the window; the lists are the abstract ones, and what the two placements list is added to the list. |
| `Toplevels.CreationLists` | src/ei_placermanager.c:77-79 | From an empty list, that is a strip of 12 by 2 pixels in the corner of the window. |
| `Toplevels.OpeningIsReady` | src/ei_toplevelclass.c:334-339 | When such a toplevel is placed, with any other children in between, the layout comes out as from scratch if and only if both buttons get their content into the window and the other children are ready. |
| `Removal.DestroyChild` | src/ei_widget.c:623-663 | A destroy makes the lists the abstract lists after a destroy, and removes exactly what is below the widget. |
| `Removal.UnderAgrees` | src/ei_widget.c:597-621 | What lies below a widget by its pointers lies below it by the lists. |
| `Destroying.DestroyFreesOnce` | src/ei_widget.c:597-663 | Destroying frees the widget and everything below it, each once, and nothing else. |
| `Destroying.ChildrenFirst` | src/ei_widget.c:606-620 | Each widget is freed after everything below it. |
| `Destroying.NotifiedExactly` | src/ei_widget.c:597-601 | Below a destroyed widget, the destructor is called for a widget if and only if it is a first child. |
| `Destroying.DestroyRecurs` | src/ei_widget.c:597-621 | The recursive loop frees in the specified order, calls the specified destructors, and lists the place of every managed widget it frees. |
| `Destroying.UnlinkAt` | src/ei_widget.c:646-655 | Each of the four cases takes exactly one child out of the list of siblings. |
| `Destroying.DestroyWidget` | src/ei_widget.c:623-663 | The place of the widget and of all managed widgets that are freed is listed; these leave the tree, the parent's list loses that child and keeps its order, and every other list is as it was. |
| `Placement.AnchorIsAtPosition` | src/ei_placermanager.c:34-67 | Whatever its size, the point of a widget that its anchor names is at its position in the parent. |
| `Placement.PlacedExactly` | src/ei_placermanager.c:20-71 | The anchored point is at the constant plus the share of the parent from the start of the parent, truncated towards zero, and each side is its constant plus share, truncated, or the requested one if that is zero. |
| `Placement.ArgumentsAreTaken` | src/ei_geometrymanager.c:107-151 | An argument that is given is taken, and one that is left out keeps its value, or gets its default the first time. |
| `Placement.ChildMovesAlong` | src/ei_placermanager.c:21-23 | A child moves along with its parent if and only if neither coordinate is a fraction that changes sides of zero. |
| `Placement.RequestedSizeIsKept` | src/ei_geometrymanager.c:119-131 | A widget placed without sizes has the requested size of its first placement, in any parent and after later placements. |
| `Layout.ConsistentExactly` | src/ei_placermanager.c:10-81 | A tree satisfies its placer and content equations if and only if laying it out from scratch changes nothing. |
| `Layout.ClippingUnsettles` | src/ei_frameclass.c:139 | Clipping in place takes a widget out of its layout unless its rectangle lies in the window and its borders are unchanged. |
| `Layout.IncrementalIsFull` | src/ei_placermanager.c:73-80 | Re-placing a tree, in whatever state, makes it satisfy its equations, although unmoved parts are skipped, if and only if it is ready: whatever moves has its borders unchanged and room, whatever stays satisfies its equations. Then it is the layout from scratch. |
| `Layout.ReadyWhereConsistent` | src/ei_placermanager.c:73-80 | A tree that satisfies its equations is ready for a new place of its top if and only if there is room for every widget that has to move. |
| `Layout.MovesAreListed` | src/ei_placermanager.c:77-79 | Every window pixel around the old place or in the new area of a widget that moves is listed. |
| `Layout.ListedWithin` | src/ei_placermanager.c:77-79 | The list stays within the window through the whole cascade. |
| `Placer.ComputePlace` | src/ei_placermanager.c:21-67 | The adjustments by anchor compute the specified place. |
| `Placer.RunPlacer` | src/ei_placermanager.c:10-81 | Running the placer leaves the tree of the widget, and the list, as specified, and touches nothing outside that tree. |
| `Placer.UpdateContent` | src/ei_toplevelclass.c:315-333 | Content and frame rectangles follow the screen location: a toplevel's content below a top bar of 30 pixels and beside its border, the frame around both, and other contents inside the border. |
| `Placer.ListArea` | src/ei_buttonclass.c:163-164 | The area of a moved widget is listed, and a frame's location or a button's content is clipped. |
| `Placer.NotifyChildren` | src/ei_frameclass.c:133-138 | The loop over the siblings re-places each child, leaving the other subtrees alone. |
| `Placer.Place` | src/ei_geometrymanager.c:81-157 | After a placement, the tree of the widget satisfies its equations if and only if it was ready, and then it is the one laid out from scratch; the list is as specified. |
| `Layout.ConsistentIsStill` | src/ei_application.c:101-102 | Where a tree satisfies its equations, every managed widget is where the placer puts it, as drawing needs it. |
| `Repainting.AlikePaintsAlike` | src/ei_application.c:87-117 | Trees whose widgets differ only where they miss a pixel paint that pixel alike. |
| `Repainting.PlacementIsAlike` | src/ei_placermanager.c:73-80 | A placement leaves every pixel alike at which the placed widget painted nothing before and paints nothing afterwards. |
| `MovedWidgets.FramesAreListed` | src/ei_frameclass.c:139 | Placing a frame lists every pixel it repaints. |
| `MovedWidgets.ToplevelsExactly` | src/ei_toplevelclass.c:326-342 | Moving a toplevel lists every pixel it repaints if and only if its whole old frame is listed. |
| `MovedWidgets.ToplevelsAppear` | src/ei_toplevelclass.c:326-342 | The first placement of a toplevel, if it moves it, lists every pixel it repaints, whatever its children and the earlier list. |
| `MovedWidgets.ToplevelsListedIf` | src/ei_placermanager.c:73-80 | With any children and any earlier list, it does if the new frame takes in the strips that the old place leaves out. |
| `MovedWidgets.LoneToplevelsExactly` | src/ei_application.c:359-373 | Without children, from an empty list, it does if and only if the old frame lies in the merged rectangle, or the new frame takes in both strips when the two are listed apart. |
| `MovedWidgets.ToplevelsShowExactly` | src/ei_application.c:302-328 | For a toplevel on the root, with any children and any earlier list, and colours other than the root's: the surface is right at every unlisted pixel if and only if the move lists every pixel it repaints. |
| `MovedWidgets.ToplevelMovedUp` | src/ei_toplevelclass.c:326-342 | A toplevel with a border, moved up by three pixels or more, leaves a pixel of its old bottom border unlisted that showed it and ought to show the root, as long as its children and what was listed before do not reach down to that row. |
| `MovedWidgets.MovedUpExample` | src/ei_toplevelclass.c:326-342 | Such a pixel in a window of 640 by 480. |
| `MovedWidgets.MovedDownExample` | src/ei_toplevelclass.c:326-342 | The same toplevel moved down by one pixel is repainted completely, whatever was listed. |
| `MovedWidgets.LoneButtonsExactly` | src/ei_buttonclass.c:137-165 | Moving a button with a border and without children, from an empty list, lists every pixel it repaints if and only if its polygon at the new place keeps within the merged rectangle, or within the old place and the new content when these are listed apart. |
| `MovedWidgets.ButtonsListedIf` | src/ei_buttonclass.c:163-164 | With any children and any earlier list, it does if the polygon keeps within the old place, extended by two pixels, and the new content. |
| `MovedWidgets.ButtonNudged` | src/ei_placermanager.c:77-79 | Moving a button by two pixels or less in either direction lists every pixel it repaints. |
| `MovedWidgets.ButtonsShowExactly` | src/ei_application.c:302-328 | For a button without children on the root, of another colour: the surface is right at every unlisted pixel if and only if the move lists every pixel it repaints. |
| `MovedWidgets.ButtonMovedRight` | src/ei_buttonclass.c:163-164 | A button with a border moved to the right by three pixels or more leaves a pixel of its new border unlisted that showed the root and ought to show the button. |
| `MovedWidgets.MovedRightExample` | src/ei_buttonclass.c:163-164 | Such a pixel in a window of 640 by 480 after a move by ten pixels; a move of the same button by two is repainted completely. |
| `DestroyedWidgets.DestroyingLists` | src/ei_widget.c:603-626 | Destroying lists the place of the widget and that of every managed widget below it, and keeps what was listed. |
| `DestroyedWidgets.FramesAreListedByDestroying` | src/ei_widget.c:626 | Destroying a frame or a button that keeps within its screen location lists all it has painted. |
| `DestroyedWidgets.LoneToplevelsByDestroyingExactly` | src/ei_widget.c:626 | Destroying a toplevel without children, from an empty list, lists all it has painted if and only if the part of its frame in the window keeps within its screen location. |
| `DestroyedWidgets.ToplevelsByDestroyingIf` | src/ei_toplevelclass.c:22-26 | With any children and any earlier list, it does if that holds, or if the frame was invalidated just before, as the handler of the close button does. |
| `DestroyedWidgets.DestroysShowExactly` | src/ei_application.c:302-328 | For a toplevel on the root, with any children and any earlier list, and colours other than the root's: the surface is right at every unlisted pixel if and only if the destroy lists all that was painted. |
| `DestroyedWidgets.ToplevelDestroyed` | tests/two048.c:496-499 | A destroyed toplevel leaves a pixel of its frame unlisted that shows something else than the root, if neither its place, nor those of the managed widgets below it, nor the earlier list reach down to that row. |
| `DestroyedWidgets.GameDestroyed` | tests/two048.c:120-141 | The toplevel of a game of 4 by 4 tiles of 100 pixels leaves eight rows of its frame so. |
| `Sessions.EditedPaintsAlike` | src/ei_application.c:98-116 | An edit of the tree that leaves the painting of a pixel alike where it is made leaves it alike in the whole drawing. |
| `Sessions.EditedConsistent` | src/ei_placermanager.c:10-81 | An edit that keeps the equations where it is made keeps them in the whole tree. |
| `Sessions.CommandKeeps` | src/ei_application.c:302-328 | A create, a placement of a widget that is ready, a destroy, or a redraw, if it lists every pixel it repaints, keeps this invariant: every pixel at which the pick surface is wrong is listed, and every managed widget satisfies its equations. |
| `Sessions.EverySession` | src/ei_application.c:302-328 | In every run of such commands, of any length, the invariant holds, and whenever the list is processed the pick surface shows the tree. |
| `SessionSteps.ClimbEdited` | src/ei_widget.c:597-663 | A change of one widget's tree that goes up through its ancestors is an edit of the root's tree at the widget's path. |
| `SessionSteps.CreateStep` | src/ei_widget.c:515-595 | Creating a frame or a button is the command that creates below the path of its parent, for the tree, the list and the surface. |
| `SessionSteps.PlaceStep` | src/ei_geometrymanager.c:81-157 | Placing a widget is the command that places at its path, for the tree, the list and the surface. |
| `SessionSteps.DestroyStep` | src/ei_widget.c:623-663 | Destroying a widget is the command that destroys at its path. |
| `SessionSteps.RedrawStep` | src/ei_application.c:302-328 | In a tree that satisfies its equations, processing the list is the command that redraws. |
| `SessionSteps.PlaceAndRedraw` | src/ei_application.c:302-328 | With the invariant, placing a widget that is ready, if that lists every pixel it repaints, and then processing the list leaves the tree of the command, makes the pick surface show it, and keeps the invariant. |
| `SessionSteps.DestroyAndRedraw` | src/ei_application.c:302-328 | With the invariant, destroying a widget, if that lists all it has painted, and then processing the list leaves the tree of the command, makes the pick surface show it, and keeps the invariant. |

## Left out

- The hardware layer, fonts, images, event waiting and dispatch, event bindings, widget attributes and their storage, and the colour surface: drawing is stated for the pick surface only.
- Polygons: `ei_draw_polygon` is not part of the repository's sources; a widget's polygon is an arbitrary set of pixels that depends on its screen location.
- Sessions with close buttons (`no_clipping`): the invariant of a session fails with them, so it is proved for trees without; the first drawing, picking, and the exact condition for a redraw to make a pixel right are proved with them.
- Creating a toplevel in the middle of a session: it comes with a close button. Frames and buttons can be created at any time.
- Drawing a tree in which some managed widget is not where the placer puts it: the placer then moves widgets and lists rectangles while the list is processed. The methods that draw require a tree without such widgets.
- Machine integers and floats: coordinates and counters are unbounded, and relative coordinates, random draws and blending weights are real numbers, without rounding.
- Random numbers: a draw is any number from 0 to 1, and a mine goes to any cell without one, in place of the retry loop of `place_mines`.
- Surfaces and boards have at least one column and one row, and filling a rectangle without pixels is skipped.
- Decoding the alpha of a surface that has none shifts by a negative number in C; the model takes it as zero.
- The order of drawing and updating the windows of the games (`update_board`, frame configuration); only the announced text is kept.
- Resizing and moving toplevels by the mouse, and the handler of the close button.
- A class name that is not registered, for which `ei_widget_create` returns nothing.
- The unbinding of events in `ei_widget_destroy`, and what it writes to widgets that it frees next.
- `Hierarchy.CreateWidget`: is not called where the C loop follows a null pointer; `ChildLists.Step` calls that a crash, and says exactly when.
- `Drawing.DrawWidget`: does not model the relief, the text and the image of a frame or button.
