/**
 * The rules of the game as values: a snapshot of the game state and the
 * effect of a move, an undo and a reset on it. The engine class in
 * SimEngine is proved to change its fields exactly as these functions say.
 */
module SimRules {
  import opened SimBoard

  /** The whole state of a game: the coloured pairs, the order they were played in, whose turn it is, and the end of game. */
  datatype Game = Game(
    edges: map<Key, Color>,
    history: seq<Key>,
    currentColor: Color,
    gameOver: bool,
    winEdges: seq<Edge>)

  /** Why a move changed nothing. */
  datatype Reason = GameOver | SelfLoop | EdgeTaken

  /** Which branch a move took. */
  datatype Outcome =
    | Rejected(reason: Reason)
    | Accepted(next: Color)
    | Won(winner: Color, triangle: Triangle)

  datatype Step = Step(game: Game, outcome: Outcome)

  /** The state a game starts in and returns to on reset. */
  function Initial(): Game {
    Game(map[], [], Red, false, [])
  }

  /** The sides of a triangle as the winning edges are recorded, all in colour c. */
  function WinEdges(t: Triangle, c: Color): (r: seq<Edge>)
    ensures |r| == 3
    ensures forall e :: e in r ==> e.color == c
    ensures Joins(r[0], t.i, t.j) && Joins(r[1], t.j, t.k) && Joins(r[2], t.i, t.k)
  {
    [Edge(t.i, t.j, c), Edge(t.j, t.k, c), Edge(t.i, t.k, c)]
  }

  /**
   * A move on the pair {a, b}: ignored when the game is over, when a == b or
   * when the pair is already coloured; otherwise the pair is coloured by the
   * player to move, and either that completes a triangle of that colour and
   * ends the game, or the turn passes.
   */
  function ApplyMove(n: int, g: Game, a: int, b: int): Step {
    if g.gameOver then Step(g, Rejected(GameOver))
    else if a == b then Step(g, Rejected(SelfLoop))
    else
      var key := Canonical(a, b);
      if key in g.edges then Step(g, Rejected(EdgeTaken))
      else
        var c := g.currentColor;
        var edges := g.edges[key := c];
        var history := g.history + [key];
        match FirstTriangle(n, ColorEdges(Values(edges, history), c))
        case Some(t) => Step(Game(edges, history, c, true, WinEdges(t, c)), Won(c, t))
        case None => Step(Game(edges, history, Other(c), false, g.winEdges), Accepted(Other(c)))
  }

  /** Undo: unless nothing was played or the game is over, take back the last move and give the turn back. */
  function UndoMove(g: Game): Game {
    if |g.history| == 0 || g.gameOver then g
    else
      var last := g.history[|g.history| - 1];
      g.(edges := g.edges - {last},
         history := g.history[..|g.history| - 1],
         currentColor := Other(g.currentColor))
  }

  /** The keys of the history are pairwise distinct. */
  ghost predicate Distinct(s: seq<Key>) {
    forall p, q :: 0 <= p < q < |s| ==> s[p] != s[q]
  }

  /**
   * Each key is a pair of distinct vertices of the board in ascending order,
   * and the history lists every key exactly once.
   */
  ghost predicate Tracked(n: int, edges: map<Key, Color>, history: seq<Key>) {
    (forall k :: k in edges ==> 0 <= k.0 < k.1 < n) &&
    Distinct(history) &&
    (forall p :: 0 <= p < |history| ==> history[p] in edges) &&
    (forall k :: k in edges ==> k in history)
  }

  /** The p-th move of the history is red exactly when p is even: red moves first and colours alternate. */
  ghost predicate ColorsAlternate(edges: map<Key, Color>, history: seq<Key>) {
    forall p :: 0 <= p < |history| && history[p] in edges ==> (edges[history[p]] == Red <==> p % 2 == 0)
  }

  /**
   * The turn alternates: the colours of the history alternate, and red is
   * to move exactly when an even number of moves have passed the turn (a
   * winning move does not pass it).
   */
  ghost predicate Alternates(g: Game) {
    ColorsAlternate(g.edges, g.history) &&
    (g.currentColor == Red <==> (|g.history| - (if g.gameOver then 1 else 0)) % 2 == 0)
  }

  /**
   * The winning edges are set exactly when the game is over, as three edges
   * on the board in the colour of the player who moved last.
   */
  ghost predicate WinRecorded(g: Game) {
    (!g.gameOver ==> g.winEdges == []) &&
    (g.gameOver ==>
      |g.winEdges| == 3 &&
      forall e :: e in g.winEdges ==> e.color == g.currentColor && Colored(g.edges, g.currentColor, e.a, e.b))
  }

  /**
   * What every reachable state satisfies: each key is a pair of distinct
   * vertices in ascending order, the history lists every key exactly once,
   * the colours of the history and the player to move follow the alternation
   * of turns, and the winning edges are recorded exactly when the game is over.
   */
  ghost predicate Inv(n: int, g: Game) {
    Tracked(n, g.edges, g.history) && Alternates(g) && WinRecorded(g)
  }

  lemma InitialInv(n: int)
    ensures Inv(n, Initial())
    ensures Initial().edges == map[] && Initial().history == []
    ensures Initial().currentColor == Red && !Initial().gameOver && Initial().winEdges == []
  {
  }

  lemma {:induction false} DistinctCount(s: seq<Key>)
    requires Distinct(s)
    ensures |set x | x in s| == |s|
  {
    if s != [] {
      var init := s[..|s| - 1];
      DistinctCount(init);
      assert (set x | x in s) == (set x | x in init) + {s[|s| - 1]};
    }
  }

  /** The history is as long as the board has coloured pairs. */
  lemma HistoryMatchesEdges(n: int, g: Game)
    requires Inv(n, g)
    ensures |g.history| == |g.edges|
  {
    DistinctCount(g.history);
    assert (set x | x in g.history) == g.edges.Keys;
  }

  /** A move of the same vertex twice is no move. */
  lemma SelfLoopIgnored(n: int, g: Game, a: int)
    ensures ApplyMove(n, g, a, a).game == g
    ensures !g.gameOver ==> ApplyMove(n, g, a, a).outcome == Rejected(SelfLoop)
  {
  }

  /** A move on a coloured pair, in either order, changes nothing. */
  lemma TakenPairIgnored(n: int, g: Game, a: int, b: int)
    requires Colored(g.edges, Red, a, b) || Colored(g.edges, Blue, a, b)
    ensures ApplyMove(n, g, a, b).game == g
    ensures ApplyMove(n, g, b, a).game == g
    ensures !g.gameOver && a != b ==> ApplyMove(n, g, a, b).outcome == Rejected(EdgeTaken)
  {
  }

  /** The order in which the two vertices are picked does not matter. */
  lemma MoveSymmetric(n: int, g: Game, a: int, b: int)
    ensures ApplyMove(n, g, a, b) == ApplyMove(n, g, b, a)
  {
  }

  /** Once the game is over, moves and undo change nothing. */
  lemma OverIsFinal(n: int, g: Game, a: int, b: int)
    requires g.gameOver
    ensures ApplyMove(n, g, a, b) == Step(g, Rejected(GameOver))
    ensures UndoMove(g) == g
  {
  }

  /** Undo with nothing played changes nothing. */
  lemma UndoEmptyIgnored(g: Game)
    requires g.history == []
    ensures UndoMove(g) == g
  {
  }

  /**
   * A move on a fresh pair: the pair is recorded under its ascending key in
   * the mover's colour and appended to the history. If that gives the mover
   * a triangle, the game ends with the mover to move, and the winning edges
   * are the sides of the first such triangle; otherwise the turn passes and
   * nothing else changes.
   */
  lemma FreshMove(n: int, g: Game, a: int, b: int)
    requires KeysListed(g.edges, g.history)
    requires !g.gameOver && a != b && Canonical(a, b) !in g.edges
    ensures var s := ApplyMove(n, g, a, b);
      var key := Canonical(a, b);
      var c := g.currentColor;
      key.0 < key.1 && (key.0, key.1) in {(a, b), (b, a)} &&
      s.game.edges == g.edges[key := c] &&
      s.game.history == g.history + [key] &&
      (s.outcome.Accepted? <==> forall t :: InRange(n, t) ==> !BoardTriangle(s.game.edges, c, t)) &&
      (s.outcome.Accepted? ==>
        s.outcome.next == Other(c) && s.game.currentColor == Other(c) &&
        !s.game.gameOver && s.game.winEdges == g.winEdges) &&
      (s.outcome.Won? ==>
        s.outcome.winner == c && s.game.currentColor == c && s.game.gameOver &&
        InRange(n, s.outcome.triangle) && BoardTriangle(s.game.edges, c, s.outcome.triangle) &&
        (forall u :: InRange(n, u) && Before(u, s.outcome.triangle) ==> !BoardTriangle(s.game.edges, c, u)) &&
        s.game.winEdges == WinEdges(s.outcome.triangle, c))
  {
    var key := Canonical(a, b);
    var c := g.currentColor;
    var edges := g.edges[key := c];
    var history := g.history + [key];
    CheckTriangleOnBoard(n, edges, history, c);
  }

  /** Appending a key that is not on the board keeps the history and the board in step. */
  lemma RecordKeepsHistory(n: int, g: Game, key: Key, c: Color)
    requires Inv(n, g)
    requires key !in g.edges && 0 <= key.0 < key.1 < n
    ensures Tracked(n, g.edges[key := c], g.history + [key])
  {
    var history := g.history + [key];
    forall p, q | 0 <= p < q < |history| ensures history[p] != history[q] {
      if q == |g.history| {
        assert history[p] == g.history[p];
      }
    }
  }

  /** The two results of a move on a fresh pair, by the outcome of the search. */
  lemma FreshStep(n: int, g: Game, a: int, b: int, r: Option<Triangle>)
    requires !g.gameOver && a != b && Canonical(a, b) !in g.edges
    requires r == FirstTriangle(n, ColorEdges(Values(g.edges[Canonical(a, b) := g.currentColor], g.history + [Canonical(a, b)]), g.currentColor))
    ensures var key := Canonical(a, b);
      var c := g.currentColor;
      var edges := g.edges[key := c];
      var history := g.history + [key];
      (r.Some? ==> ApplyMove(n, g, a, b) == Step(Game(edges, history, c, true, WinEdges(r.value, c)), Won(c, r.value))) &&
      (r.None? ==> ApplyMove(n, g, a, b) == Step(Game(edges, history, Other(c), false, g.winEdges), Accepted(Other(c))))
  {
  }

  /** The two results of a move on a fresh pair both keep the invariant. */
  lemma FreshStepInv(n: int, g: Game, a: int, b: int, r: Option<Triangle>)
    requires Inv(n, g) && 0 <= a < n && 0 <= b < n
    requires !g.gameOver && a != b && Canonical(a, b) !in g.edges
    requires r == FirstTriangle(n, ColorEdges(Values(g.edges[Canonical(a, b) := g.currentColor], g.history + [Canonical(a, b)]), g.currentColor))
    ensures var key := Canonical(a, b);
      var c := g.currentColor;
      var edges := g.edges[key := c];
      var history := g.history + [key];
      (r.Some? ==> Inv(n, Game(edges, history, c, true, WinEdges(r.value, c)))) &&
      (r.None? ==> Inv(n, Game(edges, history, Other(c), false, g.winEdges)))
  {
    FreshStep(n, g, a, b, r);
    MoveKeepsInv(n, g, a, b);
  }

  /** Every move keeps the invariant. */
  lemma MoveKeepsInv(n: int, g: Game, a: int, b: int)
    requires Inv(n, g)
    requires 0 <= a < n && 0 <= b < n
    ensures Inv(n, ApplyMove(n, g, a, b).game)
  {
    if !g.gameOver && a != b && Canonical(a, b) !in g.edges {
      var key := Canonical(a, b);
      var c := g.currentColor;
      var edges := g.edges[key := c];
      var history := g.history + [key];
      RecordKeepsHistory(n, g, key, c);
      MoveKeepsTurns(n, g, a, b);
      var r := FirstTriangle(n, ColorEdges(Values(edges, history), c));
      if r.Some? {
        CheckTriangleOnBoard(n, edges, history, c);
        WinKeepsInv(edges, history, c, r.value);
      }
    }
  }

  /** Ending the game with the sides of a board triangle of the mover's colour records the win. */
  lemma WinKeepsInv(edges: map<Key, Color>, history: seq<Key>, c: Color, t: Triangle)
    requires BoardTriangle(edges, c, t)
    ensures WinRecorded(Game(edges, history, c, true, WinEdges(t, c)))
  {
  }

  /** One more move flips the parity of the move count. */
  lemma NextParity(m: int)
    ensures (m + 1) % 2 == 0 <==> m % 2 != 0
  {
  }

  /** Pushing a fresh pair in the colour its position calls for keeps the colours alternating. */
  lemma PushKeepsColors(edges: map<Key, Color>, history: seq<Key>, key: Key, c: Color)
    requires ColorsAlternate(edges, history)
    requires forall p :: 0 <= p < |history| ==> history[p] in edges
    requires key !in edges && (c == Red <==> |history| % 2 == 0)
    ensures ColorsAlternate(edges[key := c], history + [key])
  {
    var h := history + [key];
    forall p | 0 <= p < |h| && h[p] in edges[key := c]
      ensures edges[key := c][h[p]] == Red <==> p % 2 == 0
    {
      if p < |history| {
        assert h[p] == history[p];
      }
    }
  }

  /**
   * Recording a fresh pair in the colour of the player to move keeps the
   * alternation, whether the turn then passes or the move ends the game.
   */
  lemma RecordKeepsTurns(g: Game, key: Key, won: bool, winEdges: seq<Edge>)
    requires Alternates(g) && !g.gameOver && key !in g.edges
    requires forall p :: 0 <= p < |g.history| ==> g.history[p] in g.edges
    ensures var c := g.currentColor;
      Alternates(Game(g.edges[key := c], g.history + [key], if won then c else Other(c), won, winEdges))
  {
    PushKeepsColors(g.edges, g.history, key, g.currentColor);
    NextParity(|g.history|);
  }

  /**
   * A move keeps the alternation: the recorded pair gets the colour its
   * position in the history calls for, and the turn passes unless the move
   * ends the game.
   */
  lemma MoveKeepsTurns(n: int, g: Game, a: int, b: int)
    requires Tracked(n, g.edges, g.history) && Alternates(g)
    ensures Alternates(ApplyMove(n, g, a, b).game)
  {
    if !g.gameOver && a != b && Canonical(a, b) !in g.edges {
      var key := Canonical(a, b);
      var c := g.currentColor;
      var r := FirstTriangle(n, ColorEdges(Values(g.edges[key := c], g.history + [key]), c));
      FreshStep(n, g, a, b, r);
      if r.Some? {
        RecordKeepsTurns(g, key, true, WinEdges(r.value, c));
      } else {
        RecordKeepsTurns(g, key, false, g.winEdges);
      }
    }
  }

  /** Popping the last move keeps the colours of the rest alternating. */
  lemma PopKeepsColors(edges: map<Key, Color>, history: seq<Key>)
    requires ColorsAlternate(edges, history) && |history| > 0
    ensures ColorsAlternate(edges - {history[|history| - 1]}, history[..|history| - 1])
  {
    var h := history[..|history| - 1];
    forall p | 0 <= p < |h| && h[p] in edges - {history[|history| - 1]}
      ensures (edges - {history[|history| - 1]})[h[p]] == Red <==> p % 2 == 0
    {
      assert h[p] == history[p];
    }
  }

  /** Undo keeps the invariant. */
  lemma UndoKeepsInv(n: int, g: Game)
    requires Inv(n, g)
    ensures Inv(n, UndoMove(g))
  {
    if |g.history| > 0 && !g.gameOver {
      var last := g.history[|g.history| - 1];
      var h := g.history[..|g.history| - 1];
      forall p | 0 <= p < |h| ensures h[p] != last && h[p] in g.edges - {last} {
        assert h[p] == g.history[p];
      }
      forall k | k in g.edges - {last} ensures k in h {
        var p :| 0 <= p < |g.history| && g.history[p] == k;
        assert p < |h|;
        assert h[p] == k;
      }
      PopKeepsColors(g.edges, g.history);
      NextParity(|h|);
      assert UndoMove(g) == Game(g.edges - {last}, h, Other(g.currentColor), false, g.winEdges);
    }
  }

  /** Undo gives the turn back to the player who coloured the pair it removes. */
  lemma UndoGivesBackMover(n: int, g: Game)
    requires Inv(n, g) && !g.gameOver && |g.history| > 0
    ensures UndoMove(g).currentColor == g.edges[g.history[|g.history| - 1]]
  {
    var p := |g.history| - 1;
    assert g.edges[g.history[p]] == Red <==> p % 2 == 0;
  }

  /** Undo right after a move that did not end the game restores the state exactly. */
  lemma MoveThenUndo(n: int, g: Game, a: int, b: int)
    requires ApplyMove(n, g, a, b).outcome.Accepted?
    ensures UndoMove(ApplyMove(n, g, a, b).game) == g
  {
    var key := Canonical(a, b);
    var c := g.currentColor;
    FreshStep(n, g, a, b, FirstTriangle(n, ColorEdges(Values(g.edges[key := c], g.history + [key]), c)));
    var moved := Game(g.edges[key := c], g.history + [key], Other(c), false, g.winEdges);
    assert ApplyMove(n, g, a, b).game == moved;
    assert moved.edges - {key} == g.edges;
    assert moved.history[..|g.history|] == g.history;
    OtherTwice(c);
  }

  /** After a winning move undo is disabled, so the move stays on the board. */
  lemma WinThenUndo(n: int, g: Game, a: int, b: int)
    requires ApplyMove(n, g, a, b).outcome.Won?
    ensures UndoMove(ApplyMove(n, g, a, b).game) == ApplyMove(n, g, a, b).game
    ensures UndoMove(ApplyMove(n, g, a, b).game).edges != g.edges
  {
    assert Canonical(a, b) in ApplyMove(n, g, a, b).game.edges;
  }

  /**
   * Every move does one of three things: it is rejected and changes nothing,
   * it is accepted, passing the turn and growing the history by one, or it
   * ends the game.
   */
  lemma MoveOutcomes(n: int, g: Game, a: int, b: int)
    ensures var s := ApplyMove(n, g, a, b);
      (s.outcome.Rejected? ==> s.game == g) &&
      (s.outcome.Accepted? ==>
        s.game.currentColor == Other(g.currentColor) && !s.game.gameOver &&
        |s.game.history| == |g.history| + 1) &&
      (s.outcome.Won? ==> s.game.gameOver && s.game.currentColor == g.currentColor && |s.game.history| == |g.history| + 1)
  {
  }

  /** A move as the player picks it: two vertices, in the order they were clicked. */
  type Pick = (int, int)

  /** The state after playing the moves in order. */
  function Replay(n: int, g: Game, moves: seq<Pick>): Game
    decreases |moves|
  {
    if moves == [] then g
    else Replay(n, ApplyMove(n, g, moves[0].0, moves[0].1).game, moves[1..])
  }

  /** How many of the moves were accepted with the turn passing. */
  function AcceptedCount(n: int, g: Game, moves: seq<Pick>): nat
    decreases |moves|
  {
    if moves == [] then 0
    else
      var s := ApplyMove(n, g, moves[0].0, moves[0].1);
      (if s.outcome.Accepted? then 1 else 0) + AcceptedCount(n, s.game, moves[1..])
  }

  /**
   * Turns alternate: as long as no move has ended the game, the player to
   * move has changed once per accepted move, and each accepted move has
   * added one entry to the history.
   */
  lemma {:induction false} TurnsAlternate(n: int, g: Game, moves: seq<Pick>)
    requires !Replay(n, g, moves).gameOver
    ensures var m := AcceptedCount(n, g, moves);
      Replay(n, g, moves).currentColor == (if m % 2 == 0 then g.currentColor else Other(g.currentColor)) &&
      |Replay(n, g, moves).history| == |g.history| + m
    decreases |moves|
  {
    if moves != [] {
      var s := ApplyMove(n, g, moves[0].0, moves[0].1);
      MoveOutcomes(n, g, moves[0].0, moves[0].1);
      if s.game.gameOver {
        OverStaysOver(n, s.game, moves[1..]);
      }
      TurnsAlternate(n, s.game, moves[1..]);
      var rest := AcceptedCount(n, s.game, moves[1..]);
      assert Replay(n, g, moves) == Replay(n, s.game, moves[1..]);
      if s.outcome.Accepted? {
        assert AcceptedCount(n, g, moves) == rest + 1;
        NextParity(rest);
        OtherTwice(g.currentColor);
      } else {
        assert AcceptedCount(n, g, moves) == rest;
      }
    }
  }

  lemma {:induction false} OverStaysOver(n: int, g: Game, moves: seq<Pick>)
    requires g.gameOver
    ensures Replay(n, g, moves) == g
    decreases |moves|
  {
    if moves != [] {
      OverStaysOver(n, g, moves[1..]);
    }
  }

  /** A move on a fresh pair that gives the mover no triangle is accepted and passes the turn. */
  lemma AcceptedWithoutTriangle(n: int, g: Game, a: int, b: int)
    requires KeysListed(g.edges, g.history)
    requires !g.gameOver && a != b && Canonical(a, b) !in g.edges
    requires forall t :: InRange(n, t) ==> !BoardTriangle(g.edges[Canonical(a, b) := g.currentColor], g.currentColor, t)
    ensures ApplyMove(n, g, a, b) ==
      var c := g.currentColor;
      Step(Game(g.edges[Canonical(a, b) := c], g.history + [Canonical(a, b)], Other(c), false, g.winEdges), Accepted(Other(c)))
  {
    var key := Canonical(a, b);
    CheckTriangleOnBoard(n, g.edges[key := g.currentColor], g.history + [key], g.currentColor);
  }

  /** On the six-vertex board below, red's first triangle is 0, 1, 2. */
  lemma SixVertexSearch(n: int, edges: map<Key, Color>, history: seq<Key>)
    requires n == 6
    requires edges == map[(0, 1) := Red, (3, 4) := Blue, (1, 2) := Red, (4, 5) := Blue, (0, 2) := Red]
    requires history == [(0, 1), (3, 4), (1, 2), (4, 5), (0, 2)]
    ensures FirstTriangle(n, ColorEdges(Values(edges, history), Red)) == Some(Triangle(0, 1, 2))
  {
    assert BoardTriangle(edges, Red, Triangle(0, 1, 2));
    assert KeysListed(edges, history);
    CheckTriangleOnBoard(n, edges, history, Red);
    var t := FirstTriangle(n, ColorEdges(Values(edges, history), Red)).value;
    assert !Before(Triangle(0, 1, 2), t);
  }

  /**
   * Six vertices, red (0, 1), blue (3, 4), red (1, 2), blue (4, 5) played,
   * red to move. Red plays (2, 0) and now owns all three sides of 0, 1, 2:
   * the game ends with red declared the winner, red still the current
   * colour, and those three sides as the winning edges.
   */
  lemma SixVertexWin(n: int, g: Game)
    requires n == 6
    requires g.edges == map[(0, 1) := Red, (3, 4) := Blue, (1, 2) := Red, (4, 5) := Blue]
    requires g.history == [(0, 1), (3, 4), (1, 2), (4, 5)]
    requires g.currentColor == Red && !g.gameOver
    ensures var s := ApplyMove(n, g, 2, 0);
      s.outcome == Won(Red, Triangle(0, 1, 2)) &&
      s.game.gameOver && s.game.currentColor == Red &&
      s.game.winEdges == [Edge(0, 1, Red), Edge(1, 2, Red), Edge(0, 2, Red)] &&
      s.game.history == [(0, 1), (3, 4), (1, 2), (4, 5), (0, 2)]
  {
    var edges := g.edges[(0, 2) := Red];
    var history := g.history + [(0, 2)];
    SixVertexSearch(n, edges, history);
    var t := Triangle(0, 1, 2);
    FreshStep(n, g, 2, 0, Some(t));
    assert ApplyMove(n, g, 2, 0) == Step(Game(edges, history, Red, true, WinEdges(t, Red)), Won(Red, t));
  }

  /**
   * Three vertices, red (0, 1) and blue (1, 2) played, red to move. Red plays
   * (0, 2), the last free pair. Red owns only two sides of the one triangle,
   * so the move is accepted and the turn passes; the board is full and the
   * game is not over.
   */
  lemma ThreeVertexFullBoard(n: int, g: Game)
    requires n == 3
    requires g.edges == map[(0, 1) := Red, (1, 2) := Blue]
    requires g.history == [(0, 1), (1, 2)]
    requires g.currentColor == Red && !g.gameOver
    ensures var s := ApplyMove(n, g, 0, 2);
      s.outcome == Accepted(Blue) && !s.game.gameOver &&
      s.game.edges == map[(0, 1) := Red, (1, 2) := Blue, (0, 2) := Red] &&
      forall a, b :: 0 <= a < n && 0 <= b < n && a != b ==> Canonical(a, b) in s.game.edges
  {
    var edges := g.edges[(0, 2) := Red];
    assert edges == map[(0, 1) := Red, (1, 2) := Blue, (0, 2) := Red];
    forall t | InRange(n, t) ensures !BoardTriangle(edges, Red, t) {
      assert t == Triangle(0, 1, 2);
      assert !Colored(edges, Red, 1, 2);
    }
    AcceptedWithoutTriangle(n, g, 0, 2);
  }
}
