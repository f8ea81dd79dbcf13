/**
 * The game engine: the module-level state of the page (the edge map, the
 * move history, the colour to move, the end-of-game flag and the winning
 * edges) as the fields of one object, and the three operations that change
 * them in place.
 */
module SimEngine {
  import opened SimBoard
  import opened SimRules

  class Engine {
    /** The number of vertices on the board. */
    const n: int

    var edges: map<Key, Color>
    var history: seq<Key>
    var currentColor: Color
    var gameOver: bool
    var winEdges: seq<Edge>

    /** The fields as one value of the rules' game state. */
    function State(): Game
      reads this
    {
      Game(edges, history, currentColor, gameOver, winEdges)
    }

    ghost predicate Valid()
      reads this
    {
      3 <= n && Inv(n, State())
    }

    /** A fresh game on n vertices: no edges, empty history, red to move. */
    constructor (n: int)
      requires 3 <= n
      ensures Valid() && this.n == n
      ensures State() == Initial()
    {
      this.n := n;
      edges := map[];
      history := [];
      currentColor := Red;
      gameOver := false;
      winEdges := [];
      new;
      InitialInv(n);
    }

    /**
     * The second click of a move: the player to move picks vertices a and b.
     * Nothing happens once the game is over, for a == b, or for a pair that is
     * already coloured. Otherwise the pair is coloured, the move is pushed on
     * the history and the mover's colour is searched for a triangle: one ends
     * the game with the mover as the winner and its sides as the winning
     * edges; none passes the turn.
     */
    method Move(a: int, b: int) returns (outcome: Outcome)
      requires Valid()
      requires 0 <= a < n && 0 <= b < n
      modifies this
      ensures Valid()
      ensures Step(State(), outcome) == ApplyMove(n, old(State()), a, b)
      ensures outcome.Rejected? ==> State() == old(State())
      ensures outcome.Accepted? ==> currentColor == Other(old(currentColor)) && |history| == old(|history|) + 1
      ensures outcome.Won? ==> gameOver && currentColor == old(currentColor) && outcome.winner == currentColor
    {
      ghost var g := State();
      if gameOver {
        return Rejected(GameOver);
      }
      if a == b {
        return Rejected(SelfLoop);
      }
      var lo, hi := a, b;
      if lo > hi {
        lo, hi := hi, lo;
      }
      var key := (lo, hi);
      assert key == Canonical(a, b);
      if key in edges {
        return Rejected(EdgeTaken);
      }
      var c := currentColor;
      var newEdges := edges[key := c];
      var newHistory := history + [key];
      var triangle := CheckTriangle(n, Values(newEdges, newHistory), c);
      FreshStep(n, g, a, b, triangle);
      FreshStepInv(n, g, a, b, triangle);
      if triangle.Some? {
        edges, history, gameOver, winEdges := newEdges, newHistory, true, WinEdges(triangle.value, c);
        assert State() == Game(newEdges, newHistory, c, true, WinEdges(triangle.value, c));
        return Won(c, triangle.value);
      }
      edges, history, currentColor := newEdges, newHistory, Other(c);
      assert State() == Game(newEdges, newHistory, Other(c), false, g.winEdges);
      return Accepted(Other(c));
    }

    /**
     * Take back the last move unless nothing was played or the game is over:
     * pop the history, delete that pair and give the turn back.
     */
    method Undo() returns (applied: bool)
      requires Valid()
      modifies this
      ensures Valid()
      ensures State() == UndoMove(old(State()))
      ensures applied <==> old(|history|) > 0 && !old(gameOver)
      ensures applied ==> history == old(history[..|history| - 1]) && currentColor == Other(old(currentColor))
      ensures applied ==> currentColor == old(edges[history[|history| - 1]])
      ensures !applied ==> State() == old(State())
    {
      UndoKeepsInv(n, State());
      if |history| == 0 || gameOver {
        return false;
      }
      UndoGivesBackMover(n, State());
      var lastKey := history[|history| - 1];
      history := history[..|history| - 1];
      edges := edges - {lastKey};
      currentColor := Other(currentColor);
      return true;
    }

    /** Wipe the board: delete every pair one by one, clear the history and the winning edges, red to move. */
    method Reset()
      requires 3 <= n
      modifies this
      ensures Valid()
      ensures State() == Initial()
      ensures edges == map[] && history == [] && currentColor == Red && !gameOver && winEdges == []
    {
      while edges.Keys != {}
        decreases |edges.Keys|
      {
        var k :| k in edges;
        edges := edges - {k};
      }
      history := [];
      winEdges := [];
      currentColor := Red;
      gameOver := false;
      InitialInv(n);
    }
  }
}
