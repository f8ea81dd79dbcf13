# Sim rules engine, in Dafny

A model of the rules engine of the edge-colouring game Sim as played in the
browser page `index.js`. Two players, red and blue, take turns to colour
pairs of vertices of a complete graph on `n` vertices. Red moves first. The
page keeps its state in module-level variables:

- `edges`: a map from the key of a pair to the record `{a, b, color}`;
- `history`: the keys in the order they were played;
- `currentColor`: whose turn it is;
- `gameOver`;
- `winEdges`: the sides of the winning triangle.

A move colours a free pair. If that gives the mover a triangle of their own
colour, the game ends and the page declares the mover the winner. Otherwise
the turn passes. Undo takes back the last move until the game is over. Reset
wipes everything.

The project has three modules, one file each:

- `SimBoard` (`board.dfy`): colours, pair keys, the edge records, `hasEdge`,
  the value list of the edge map and its filter by colour. It also holds
  `checkTriangle`, written as a method with the source's three nested loops.
  That method is proved equal to a recursive reference search, `FirstTriangle`.
  Lemmas characterise that search twice: once on the records and once on
  the edge map.
- `SimRules` (`rules.dfy`): the game state as a value (`Game`) and what a
  move, an undo and a reset do to it (`ApplyMove`, `UndoMove`, `Initial`).
  It also defines the invariant every reachable state keeps, and lemmas for
  the rules' properties.
- `SimEngine` (`engine.dfy`): the class `Engine`. Its fields are the page's
  variables, and its methods `Move`, `Undo` and `Reset` update them in place.
  Each method is proved to change the fields exactly as the matching
  `SimRules` function says, and to keep the invariant.

Modelling choices:

- The key of a pair is the integer pair `(a, b)` with `a < b`. The source
  uses the string `"a-b"` with `a < b`, which is equally unique for vertex
  indices.
- The edge map holds only the colour. The record `{a, b, color}` is rebuilt
  from the key by `Values`. `Values` walks the keys in history order, which
  is the insertion order that `Object.values` follows for non-numeric string
  keys.
- `n` is a constructor parameter of at least 3. The page fixes it at 6.
- A move is the pair of vertex indices `(a, b)` in `[0, n)` that the two
  clicks produce. `Move` returns an `Outcome` that names the branch taken:
  `Rejected(GameOver | SelfLoop | EdgeTaken)`, `Accepted(next)` or
  `Won(winner, triangle)`. The page returns nothing; apart from the outcome,
  the state changes are the page's.
- The page declares the player who completes a triangle the winner
  (`index.js:107`). Classical Sim rules make that player the loser. The
  model keeps the page's rule.
- On three vertices, red (0, 1), blue (1, 2), red (0, 2) does not end the
  game, because red owns only two of the three sides. The move is accepted
  and the board is full; `ThreeVertexFullBoard` states this.

## Model

| member | source | states |
|---|---|---|
| SimBoard.Other | index.js:112 | passing the turn always gives the other colour |
| SimBoard.OtherTwice | index.js:112 | passing the turn twice gives it back to the same colour |
| SimBoard.Canonical | index.js:94-95 | the key of a pair holds the two vertices with the smaller first |
| SimBoard.Values | index.js:121 | `Object.values(edges)`: the records of the board, walked in insertion order (ValuesSpec states what it holds) |
| SimBoard.ValuesSpec | index.js:121 | the value list of the edge map holds a record `{a, b, color}` for every key on the board, and every record in it is a key on the board with its colour |
| SimBoard.ColorEdges | index.js:121 | the filter `e.color === color` on the records (ColorEdgesSpec states what it keeps) |
| SimBoard.ColorEdgesSpec | index.js:121 | the filter keeps exactly the records of the given colour |
| SimBoard.HasEdge | index.js:136-138 | `hasEdge` is true exactly when some record joins a and b, in either direction |
| SimBoard.HasEdgeSymmetric | index.js:136-138 | `hasEdge(list, a, b)` and `hasEdge(list, b, a)` agree |
| SimBoard.Scan | index.js:122-133 | the triple loops resumed at the cursor (i, j, k), as a recursive reference search that steps the cursor as the loops do (ScanFinds states what it finds) |
| SimBoard.FirstTriangle | index.js:122-133 | the reference search started at (0, 1, 2): null exactly when no i < j < k < n has all three sides, and otherwise the lexicographically first such triple (FirstTriangleSpec) |
| SimBoard.FirstIsUnique | index.js:122-129 | two lexicographically first triangles are the same triangle |
| SimBoard.ScanFinds | index.js:122-133 | the triple enumeration resumed at a cursor finds the first triangle at or after the cursor, or reports that there is none |
| SimBoard.FirstTriangleSpec | index.js:120-134 | the search returns null exactly when no i < j < k < n has all three sides, and otherwise returns the lexicographically first such triple |
| SimBoard.CheckTriangle | index.js:120-134 | the nested loops return the lexicographically first triangle of the colour, or null exactly when there is none; the result equals the reference search |
| SimBoard.HasEdgeOnBoard | index.js:121-138 | `hasEdge` on the records of colour c is the same as looking the pair up on the board in colour c |
| SimBoard.CheckTriangleOnBoard | index.js:120-138 | `checkTriangle(c)` finds a triangle exactly when some i < j < k < n has (i, j), (j, k), (i, k) all coloured c on the board, and reports the lexicographically first |
| SimRules.Initial | index.js:7-11 | the declared start state, restored by `reset` (index.js:140-147): no edges, empty history, red to move, not over, no winning edges; it satisfies the invariant (InitialInv) |
| SimRules.ApplyMove | index.js:91-116 | the click handler's move: rejected and changing nothing when the game is over, on a self-loop or on a taken pair; otherwise records the pair, then either wins or passes the turn (SelfLoopIgnored, TakenPairIgnored, OverIsFinal, FreshMove, MoveOutcomes); it keeps the invariant (MoveKeepsInv) |
| SimRules.UndoMove | index.js:152-156 | `undo`: nothing when the history is empty or the game is over; otherwise pops the last key, deletes that pair and gives the turn back to the player who coloured it (UndoEmptyIgnored, UndoGivesBackMover); it keeps the invariant (UndoKeepsInv) and takes back an accepted move exactly (MoveThenUndo) |
| SimRules.WinEdges | index.js:102 | the winning edges are three records in the winner's colour, one per side of the triangle |
| SimRules.InitialInv | index.js:140-147 | the reset state has no edges, an empty history, red to move, the game not over, no winning edges, and it satisfies the invariant, alternation of turns included |
| SimRules.HistoryMatchesEdges | index.js:96-98 | under the invariant, the history is exactly as long as the board has coloured pairs |
| SimRules.SelfLoopIgnored | index.js:93 | picking the same vertex twice changes nothing and is rejected as a self-loop |
| SimRules.TakenPairIgnored | index.js:94-96 | a move on a coloured pair, in either order, changes nothing and is rejected as taken |
| SimRules.MoveSymmetric | index.js:94 | the order in which the two vertices are picked does not matter |
| SimRules.OverIsFinal | index.js:69 | once the game is over, every move is rejected and changes nothing, and undo changes nothing |
| SimRules.UndoEmptyIgnored | index.js:153 | undo with an empty history changes nothing |
| SimRules.FreshMove | index.js:94-112 | a move on a free pair adds exactly that pair under its ascending key in the mover's colour and appends the key to the history. Without a triangle it passes the turn and leaves the rest unchanged. With one it ends the game with the mover still current, and the winning edges are the sides of the first triangle |
| SimRules.RecordKeepsHistory | index.js:96-98 | recording a free pair and pushing its key keeps the keys ascending and the history a duplicate-free list of exactly the board's keys |
| SimRules.WinKeepsInv | index.js:101-104 | setting the game over with the sides of a board triangle of the mover's colour as the winning edges records the win as the invariant requires: three edges on the board in the mover's colour |
| SimRules.PushKeepsColors | index.js:96-97 | colouring a fresh pair in the colour its position in the history calls for keeps the history's colours alternating, red on even positions |
| SimRules.RecordKeepsTurns | index.js:96-112 | recording a fresh pair in the mover's colour keeps the alternation of turns, whether the turn then passes or the move ends the game |
| SimRules.MoveKeepsTurns | index.js:91-116 | every move keeps the alternation of turns: red moves on even positions of the history, and red is to move exactly when an even number of moves passed the turn |
| SimRules.PopKeepsColors | index.js:154-155 | popping the last move keeps the colours of the remaining history alternating |
| SimRules.MoveKeepsInv | index.js:91-116 | every move keeps the invariant: keys ascending and listed once in the history, turns alternating, the win recorded exactly when the game is over |
| SimRules.UndoKeepsInv | index.js:152-156 | undo keeps the invariant, alternation of turns included |
| SimRules.UndoGivesBackMover | index.js:153-156 | in every reachable state, undo gives the turn back to the player who coloured the pair it removes |
| SimRules.MoveThenUndo | index.js:96-98 | an accepted move followed by undo restores the edges, history, turn and flags exactly |
| SimRules.WinThenUndo | index.js:153 | after a winning move undo is disabled, so the winning pair stays on the board |
| SimRules.MoveOutcomes | index.js:93-112 | a move either is rejected and changes nothing, or is accepted, passing the turn and growing the history by one, or wins, ending the game with the turn unchanged |
| SimRules.TurnsAlternate | index.js:112 | over any sequence of moves that has not ended the game, the turn has flipped once per accepted move and the history has grown by one per accepted move |
| SimRules.AcceptedWithoutTriangle | index.js:96-113 | a move on a free pair that gives the mover no triangle is accepted, passes the turn and records the pair |
| SimRules.SixVertexSearch | index.js:120-134 | on a six-vertex board with red (0, 1), (1, 2), (0, 2), red's first triangle is 0, 1, 2 |
| SimRules.SixVertexWin | index.js:96-107 | on six vertices, red's (2, 0) completing 0, 1, 2 ends the game with red as the winner and those three sides as the winning edges |
| SimRules.ThreeVertexFullBoard | index.js:96-112 | on three vertices, red (0, 1), blue (1, 2), red (0, 2) is accepted without a win and fills the board |
| SimEngine.Engine.constructor | index.js:5-11 | a new engine on n vertices starts in the reset state and satisfies the invariant |
| SimEngine.Engine.Move | index.js:91-116 | the click handler's move changes the fields exactly as the rules' move does and keeps the invariant. Rejected moves change nothing. An accepted move flips the turn and grows the history. A win sets the game over and keeps the mover as the winner |
| SimEngine.Engine.Undo | index.js:152-160 | undo applies exactly when the history is non-empty and the game is not over. It then pops the last key and gives the turn to the player who coloured that pair, keeping the invariant; otherwise it changes nothing |
| SimEngine.Engine.Reset | index.js:140-150 | reset deletes every pair one by one, then leaves an empty board, an empty history, red to move, the game not over and no winning edges |

## Left out

- Canvas drawing (`drawPoints`, index.js:45-65) is display only.
- The gold highlight of the winning edges is display only.
- The audio cue (`ensureAudioCtx`, `playClick`, index.js:15-34) is Web Audio output. The call to `ensureAudioCtx` at the start of `reset` is left out with it.
- Vertex placement with `Math.cos`/`Math.sin` (index.js:37-43) is floating-point geometry.
- Hit-testing a click against the vertices (index.js:72-86) is floating-point geometry too. The model takes the vertex indices it yields, in `[0, n)`. An out-of-range index is excluded by `Move`'s precondition.
- The two-click `selected` buffer (index.js:70, 89-93, 105, 115, 147, 158) is input plumbing. It is always cleared once a move is decided, so a move is the pair `(a, b)`.
- The delayed `alert` and the automatic `reset` 100 ms after a win (index.js:106-109) are asynchronous UI. The model stops at the post-win state. Reset is a separate operation.
- The turn label text and the button wiring (index.js:113, 148, 157, 162-163) are DOM updates.
- Reconfiguring the number of vertices of a running engine is not modelled. `n` is fixed when the engine is built, as the page fixes it at 6.
