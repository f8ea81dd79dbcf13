/**
 * The board of a game of Sim: the two colours, the vertex pairs a move can
 * colour, the edge records kept for them, and the brute-force search for a
 * triangle whose three sides carry one colour.
 */
module SimBoard {

  datatype Option<T> = None | Some(value: T)

  /** The two players. Red moves first. */
  datatype Color = Red | Blue

  /** The colour whose turn comes next. */
  function Other(c: Color): (r: Color)
    ensures r != c
  {
    if c == Red then Blue else Red
  }

  /** Passing the turn twice gives it back. */
  lemma OtherTwice(c: Color)
    ensures Other(Other(c)) == c
  {
  }

  /** A vertex pair as the board keys it; a key on the board always has its smaller vertex first. */
  type Key = (int, int)

  /** The key of the pair {a, b}: the two vertices in ascending order. */
  function Canonical(a: int, b: int): (k: Key)
    ensures k.0 <= k.1
    ensures (k.0 == a && k.1 == b) || (k.0 == b && k.1 == a)
  {
    if a > b then (b, a) else (a, b)
  }

  /** The record the board stores for a coloured pair. */
  datatype Edge = Edge(a: int, b: int, color: Color)

  /**
   * The records of the board in the order their keys were inserted:
   * the value list of the edge map, walked in the order given by `order`.
   */
  function Values(edges: map<Key, Color>, order: seq<Key>): seq<Edge> {
    if order == [] then []
    else
      var k := order[0];
      (if k in edges then [Edge(k.0, k.1, edges[k])] else []) + Values(edges, order[1..])
  }

  /**
   * The value list holds a record for every key that is both listed and on
   * the board, and every record in it is such a key with its colour.
   */
  lemma {:induction false} ValuesSpec(edges: map<Key, Color>, order: seq<Key>)
    ensures forall k :: k in order && k in edges ==> Edge(k.0, k.1, edges[k]) in Values(edges, order)
    ensures forall e :: e in Values(edges, order) ==>
      (e.a, e.b) in order && (e.a, e.b) in edges && edges[(e.a, e.b)] == e.color
  {
    if order != [] {
      ValuesSpec(edges, order[1..]);
    }
  }

  /** The records of one colour, in their original order. */
  function ColorEdges(list: seq<Edge>, c: Color): seq<Edge> {
    if list == [] then []
    else (if list[0].color == c then [list[0]] else []) + ColorEdges(list[1..], c)
  }

  /** The filter keeps exactly the records of colour c. */
  lemma {:induction false} ColorEdgesSpec(list: seq<Edge>, c: Color)
    ensures forall e :: e in ColorEdges(list, c) <==> e in list && e.color == c
  {
    if list != [] {
      ColorEdgesSpec(list[1..], c);
    }
  }

  /** The record joins a and b, in either direction. */
  predicate Joins(e: Edge, a: int, b: int) {
    (e.a == a && e.b == b) || (e.a == b && e.b == a)
  }

  /** Some record of the list joins a and b. */
  function HasEdge(list: seq<Edge>, a: int, b: int): (r: bool)
    ensures r <==> exists e :: e in list && Joins(e, a, b)
  {
    if list == [] then false
    else Joins(list[0], a, b) || HasEdge(list[1..], a, b)
  }

  /** Asking for {a, b} or for {b, a} gives the same answer. */
  lemma {:induction false} HasEdgeSymmetric(list: seq<Edge>, a: int, b: int)
    ensures HasEdge(list, a, b) == HasEdge(list, b, a)
  {
    if list != [] {
      HasEdgeSymmetric(list[1..], a, b);
    }
  }

  /** Three vertices, reported as the sides (i, j), (j, k), (i, k). */
  datatype Triangle = Triangle(i: int, j: int, k: int)

  /** The three vertices are distinct, ascending and on a board of n vertices. */
  predicate InRange(n: int, t: Triangle) {
    0 <= t.i < t.j < t.k < n
  }

  /** All three sides of t are among the records of `list`. */
  predicate Mono(list: seq<Edge>, t: Triangle) {
    HasEdge(list, t.i, t.j) && HasEdge(list, t.j, t.k) && HasEdge(list, t.i, t.k)
  }

  /** s comes strictly before t in lexicographic (i, j, k) order. */
  predicate Before(s: Triangle, t: Triangle) {
    s.i < t.i || (s.i == t.i && (s.j < t.j || (s.j == t.j && s.k < t.k)))
  }

  /** t is a triangle of `list` and no triangle of `list` comes before it. */
  ghost predicate IsFirst(n: int, list: seq<Edge>, t: Triangle) {
    InRange(n, t) && Mono(list, t) &&
    forall s :: InRange(n, s) && Before(s, t) ==> !Mono(list, s)
  }

  /** There is at most one first triangle. */
  lemma FirstIsUnique(n: int, list: seq<Edge>, s: Triangle, t: Triangle)
    requires IsFirst(n, list, s) && IsFirst(n, list, t)
    ensures s == t
  {
  }

  /**
   * The enumeration of vertex triples in lexicographic order, resumed at the
   * cursor (i, j, k): the first triangle of `list` at or after the cursor.
   */
  function Scan(n: int, list: seq<Edge>, i: int, j: int, k: int): Option<Triangle>
    decreases n - i, n - j, n - k
  {
    if i >= n then None
    else if j >= n then Scan(n, list, i + 1, i + 2, i + 3)
    else if k >= n then Scan(n, list, i, j + 1, j + 2)
    else if Mono(list, Triangle(i, j, k)) then Some(Triangle(i, j, k))
    else Scan(n, list, i, j, k + 1)
  }

  /** The lexicographically first triangle of `list` on a board of n vertices, if any. */
  function FirstTriangle(n: int, list: seq<Edge>): Option<Triangle> {
    Scan(n, list, 0, 1, 2)
  }

  lemma {:induction false} ScanFinds(n: int, list: seq<Edge>, i: int, j: int, k: int)
    requires 0 <= i < j < k
    ensures Scan(n, list, i, j, k).Some? ==>
      var t := Scan(n, list, i, j, k).value;
      InRange(n, t) && Mono(list, t) && !Before(t, Triangle(i, j, k)) &&
      forall s :: InRange(n, s) && !Before(s, Triangle(i, j, k)) && Before(s, t) ==> !Mono(list, s)
    ensures Scan(n, list, i, j, k).None? ==>
      forall s :: InRange(n, s) && !Before(s, Triangle(i, j, k)) ==> !Mono(list, s)
    decreases n - i, n - j, n - k
  {
    if i >= n {
    } else if j >= n {
      ScanFinds(n, list, i + 1, i + 2, i + 3);
      forall s | InRange(n, s)
        ensures Before(s, Triangle(i, j, k)) <==> Before(s, Triangle(i + 1, i + 2, i + 3))
      {
      }
    } else if k >= n {
      ScanFinds(n, list, i, j + 1, j + 2);
      forall s | InRange(n, s)
        ensures Before(s, Triangle(i, j, k)) <==> Before(s, Triangle(i, j + 1, j + 2))
      {
      }
    } else if !Mono(list, Triangle(i, j, k)) {
      ScanFinds(n, list, i, j, k + 1);
    }
  }

  /** FirstTriangle finds a triangle exactly when one exists, and then the first one. */
  lemma FirstTriangleSpec(n: int, list: seq<Edge>)
    ensures FirstTriangle(n, list).None? <==> forall t :: InRange(n, t) ==> !Mono(list, t)
    ensures FirstTriangle(n, list).Some? ==> IsFirst(n, list, FirstTriangle(n, list).value)
  {
    ScanFinds(n, list, 0, 1, 2);
    forall s | InRange(n, s) ensures !Before(s, Triangle(0, 1, 2)) { }
  }

  /**
   * checkTriangle: keep the records of colour c, then try every triple
   * i < j < k < n in lexicographic order and stop at the first whose three
   * sides are all among them.
   */
  method CheckTriangle(n: int, values: seq<Edge>, c: Color) returns (r: Option<Triangle>)
    ensures r.None? <==> forall t :: InRange(n, t) ==> !Mono(ColorEdges(values, c), t)
    ensures r.Some? ==> IsFirst(n, ColorEdges(values, c), r.value)
    ensures r == FirstTriangle(n, ColorEdges(values, c))
  {
    var colorEdges := ColorEdges(values, c);
    FirstTriangleSpec(n, colorEdges);
    var i := 0;
    while i < n
      invariant 0 <= i
      invariant forall t :: InRange(n, t) && t.i < i ==> !Mono(colorEdges, t)
    {
      var j := i + 1;
      while j < n
        invariant i < j
        invariant forall t :: InRange(n, t) && (t.i < i || (t.i == i && t.j < j)) ==> !Mono(colorEdges, t)
      {
        var k := j + 1;
        while k < n
          invariant j < k
          invariant forall t :: InRange(n, t) && Before(t, Triangle(i, j, k)) ==> !Mono(colorEdges, t)
        {
          if HasEdge(colorEdges, i, j) && HasEdge(colorEdges, j, k) && HasEdge(colorEdges, i, k) {
            r := Some(Triangle(i, j, k));
            ghost var first := FirstTriangle(n, colorEdges);
            assert InRange(n, r.value) && Mono(colorEdges, r.value);
            assert first.Some?;
            FirstIsUnique(n, colorEdges, r.value, first.value);
            return;
          }
          k := k + 1;
        }
        j := j + 1;
      }
      i := i + 1;
    }
    r := None;
  }

  /** The pair {a, b} is on the board in colour c. */
  predicate Colored(edges: map<Key, Color>, c: Color, a: int, b: int) {
    Canonical(a, b) in edges && edges[Canonical(a, b)] == c
  }

  /** All three sides of t are on the board in colour c. */
  predicate BoardTriangle(edges: map<Key, Color>, c: Color, t: Triangle) {
    Colored(edges, c, t.i, t.j) && Colored(edges, c, t.j, t.k) && Colored(edges, c, t.i, t.k)
  }

  /** Every key on the board is in ascending order and appears in `order`. */
  predicate KeysListed(edges: map<Key, Color>, order: seq<Key>) {
    forall k :: k in edges ==> k.0 < k.1 && k in order
  }

  /**
   * Searching the records of colour c for {a, b}, in either direction, is
   * the same as looking the pair up on the board, once every key is in
   * ascending order and appears in the insertion order.
   */
  lemma HasEdgeOnBoard(edges: map<Key, Color>, order: seq<Key>, c: Color, a: int, b: int)
    requires KeysListed(edges, order)
    ensures HasEdge(ColorEdges(Values(edges, order), c), a, b) <==> Colored(edges, c, a, b)
  {
    var list := ColorEdges(Values(edges, order), c);
    ValuesSpec(edges, order);
    ColorEdgesSpec(Values(edges, order), c);
    if Colored(edges, c, a, b) {
      var k := Canonical(a, b);
      assert Edge(k.0, k.1, c) in Values(edges, order);
      assert Joins(Edge(k.0, k.1, c), a, b);
    }
    if HasEdge(list, a, b) {
      var e :| e in list && Joins(e, a, b);
      assert (e.a, e.b) in edges;
    }
  }

  /**
   * checkTriangle(c) on the board: it reports a triangle exactly when some
   * i < j < k < n has all of (i, j), (j, k), (i, k) in colour c, and what it
   * reports is the lexicographically first such triple.
   */
  lemma CheckTriangleOnBoard(n: int, edges: map<Key, Color>, order: seq<Key>, c: Color)
    requires KeysListed(edges, order)
    ensures var r := FirstTriangle(n, ColorEdges(Values(edges, order), c));
      (r.None? <==> forall t :: InRange(n, t) ==> !BoardTriangle(edges, c, t)) &&
      (r.Some? ==>
        InRange(n, r.value) && BoardTriangle(edges, c, r.value) &&
        forall s :: InRange(n, s) && Before(s, r.value) ==> !BoardTriangle(edges, c, s))
  {
    var list := ColorEdges(Values(edges, order), c);
    forall t: Triangle ensures Mono(list, t) <==> BoardTriangle(edges, c, t) {
      HasEdgeOnBoard(edges, order, c, t.i, t.j);
      HasEdgeOnBoard(edges, order, c, t.j, t.k);
      HasEdgeOnBoard(edges, order, c, t.i, t.k);
    }
    FirstTriangleSpec(n, list);
  }
}
