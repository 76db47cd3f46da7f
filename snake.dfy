/** The snake: its body (head first), its heading and its pending-growth flag.
    The rules are first stated on values (Advance, Collides, Turn) and proved
    about; the class Snake then updates its fields in place and each of its
    methods is tied to those rules. */
module SnakeState {
  import opened GridModel

  /** Each segment shares an edge with the next one. */
  ghost predicate Contiguous(body: seq<Cell>) {
    forall i :: 0 <= i < |body| - 1 ==> Adjacent(body[i], body[i + 1])
  }

  /** No cell is occupied twice. */
  ghost predicate Distinct(body: seq<Cell>) {
    forall i, j :: 0 <= i < j < |body| ==> body[i] != body[j]
  }

  /** A body the game can continue with: non-empty, inside the grid and
      never overlapping itself. */
  ghost predicate Alive(body: seq<Cell>) {
    |body| >= 1 && (forall i :: 0 <= i < |body| ==> InBounds(body[i])) && Distinct(body)
  }

  /** The heading is the one the head last moved along: the second segment
      lies one step behind the head. Holds after a reset and after every move. */
  ghost predicate Trailing(body: seq<Cell>, direction: Cell) {
    |body| >= 2 ==> body[1] == Add(body[0], Opposite(direction))
  }

  /** The three-segment start, centred on the grid, head rightmost. */
  function StartBody(): (b: seq<Cell>)
    ensures b == [(15, 10), (14, 10), (13, 10)]
    ensures Alive(b) && Contiguous(b) && Trailing(b, Right)
  {
    [(GridWidth / 2, GridHeight / 2),
     (GridWidth / 2 - 1, GridHeight / 2),
     (GridWidth / 2 - 2, GridHeight / 2)]
  }

  /** The body after one move: a new head one step along `direction` is pushed
      at the front, and the tail is dropped unless growth is pending. */
  function Advance(body: seq<Cell>, direction: Cell, grow: bool): (r: seq<Cell>)
    requires |body| >= 1
    ensures |r| == if grow then |body| + 1 else |body|
    ensures r[0] == Add(body[0], direction)
    ensures grow ==> r[1..] == body
    ensures !grow ==> r[1..] == body[..|body| - 1]
  {
    var pushed := [Add(body[0], direction)] + body;
    if grow then pushed else pushed[..|pushed| - 1]
  }

  /** The game-over test: the head has left the grid or lies on another
      segment. */
  function Collides(body: seq<Cell>): (r: bool)
    requires |body| >= 1
    ensures r <==> !InBounds(body[0]) || exists i :: 1 <= i < |body| && body[i] == body[0]
  {
    var head := body[0];
    if head.0 < 0 || head.0 >= GridWidth || head.1 < 0 || head.1 >= GridHeight then true
    else if head in body[1..] then true
    else false
  }

  /** The heading after one direction request: accepted unless it is the exact
      reverse of the current heading. */
  function Turn(current: Cell, requested: Cell): (r: Cell)
    ensures r == requested || r == current
    ensures r == requested <==> requested == current || Opposite(requested) != current
    ensures IsDirection(current) && IsDirection(requested) ==> IsDirection(r) && r != Opposite(current)
  {
    if Opposite(requested) != current then requested else current
  }

  /** The heading after a run of requests, each judged against the heading the
      previous ones left. */
  function TurnAll(current: Cell, requests: seq<Cell>): (r: Cell)
    ensures IsDirection(current) && (forall i :: 0 <= i < |requests| ==> IsDirection(requests[i]))
            ==> IsDirection(r)
    ensures r == current || exists i :: 0 <= i < |requests| && r == requests[i]
  {
    if requests == [] then current
    else Turn(TurnAll(current, requests[..|requests| - 1]), requests[|requests| - 1])
  }

  /** `n` moves along one heading with no growth pending. */
  function Glide(body: seq<Cell>, direction: Cell, n: nat): (r: seq<Cell>)
    requires |body| >= 1
    ensures |r| == |body|
    decreases n
  {
    if n == 0 then body else Glide(Advance(body, direction, false), direction, n - 1)
  }

  /** A move keeps the body contiguous. */
  lemma AdvanceKeepsContiguous(body: seq<Cell>, direction: Cell, grow: bool)
    requires |body| >= 1 && Contiguous(body) && IsDirection(direction)
    ensures Contiguous(Advance(body, direction, grow))
  {
  }

  /** A move keeps the heading trailing: the old head becomes the second
      segment, one step behind the new head. */
  lemma AdvanceKeepsTrailing(body: seq<Cell>, direction: Cell, grow: bool)
    requires |body| >= 1 && IsDirection(direction)
    ensures Trailing(Advance(body, direction, grow), direction)
  {
  }

  /** From a live body, the body after a move is live exactly when the
      collision test fails: the test is the whole of what can go wrong. */
  lemma AdvanceAlive(body: seq<Cell>, direction: Cell, grow: bool)
    requires Alive(body)
    ensures Alive(Advance(body, direction, grow)) <==> !Collides(Advance(body, direction, grow))
  {
  }

  /** The food stays free when the new head does not land on it: the rest of
      the body is old body. */
  lemma FoodStaysFree(body: seq<Cell>, direction: Cell, grow: bool, food: Cell)
    requires |body| >= 1 && food !in body
    requires Advance(body, direction, grow)[0] != food
    ensures food !in Advance(body, direction, grow)
  {
  }

  /** Moving into the cell the tail occupies: the tail is popped inside the
      move, before the check, so this is no collision; with growth pending the
      tail stays and it is one. */
  lemma TailChase(body: seq<Cell>, direction: Cell)
    requires Alive(body) && |body| >= 2
    requires Add(body[0], direction) == body[|body| - 1]
    ensures !Collides(Advance(body, direction, false))
    ensures Collides(Advance(body, direction, true))
  {
  }

  /** A single request cannot turn the snake back onto its second segment,
      whatever the request, as long as the heading was trailing. */
  lemma ReversalBlocked(body: seq<Cell>, direction: Cell, requested: Cell, grow: bool)
    requires |body| >= 2 && IsDirection(direction) && IsDirection(requested)
    requires Trailing(body, direction)
    ensures Advance(body, Turn(direction, requested), grow)[0] != body[1]
  {
  }

  /** Two requests between moves are each judged against the heading the first
      one left, so heading right, "up" then "left" reverses the snake; from
      the start position the next move then runs into the second segment. */
  lemma TwoRequestsReverse()
    ensures TurnAll(Right, [Up, Left]) == Left == Opposite(Right)
    ensures Advance(StartBody(), TurnAll(Right, [Up, Left]), false)[0] == StartBody()[1]
    ensures Collides(Advance(StartBody(), TurnAll(Right, [Up, Left]), false))
  {
  }

  /** A one-cell snake at the top-left corner heading left leaves the grid at
      x = -1, which is a collision. */
  lemma WallExit()
    ensures Advance([(0, 0)], Left, false) == [(-1, 0)]
    ensures Collides(Advance([(0, 0)], Left, false))
  {
  }

  /** After `n` moves without growth the head has advanced `n` steps. */
  lemma {:induction false} GlideHead(body: seq<Cell>, direction: Cell, n: nat)
    requires |body| >= 1
    ensures Glide(body, direction, n)[0] == (body[0].0 + n * direction.0, body[0].1 + n * direction.1)
    decreases n
  {
    if n > 0 {
      var a := Advance(body, direction, false);
      GlideHead(a, direction, n - 1);
      assert (n - 1) * direction.0 + direction.0 == n * direction.0;
      assert (n - 1) * direction.1 + direction.1 == n * direction.1;
    }
  }

  /** After `n` moves without growth (n at most the length) the segments behind
      the `n` new ones are the old body minus its last `n` cells: the body
      slides forward with a constant length. */
  lemma {:induction false} GlideTrail(body: seq<Cell>, direction: Cell, n: nat)
    requires n <= |body|
    requires |body| >= 1
    ensures Glide(body, direction, n)[n..] == body[..|body| - n]
    decreases n
  {
    if n > 0 {
      var a := Advance(body, direction, false);
      GlideTrail(a, direction, n - 1);
      var g := Glide(a, direction, n - 1);
      assert g[n - 1..] == a[..|a| - (n - 1)];
      assert g[n..] == g[n - 1..][1..];
      assert a[..|a| - (n - 1)][1..] == a[1..][..|body| - n];
    }
  }

  /** The snake whose fields the game updates in place. */
  class Snake {
    var body: seq<Cell>
    var direction: Cell
    var grow: bool

    ghost predicate Valid()
      reads this
    {
      |body| >= 1 && IsDirection(direction) && Contiguous(body)
    }

    constructor ()
      ensures Valid()
      ensures body == StartBody() && direction == Right && !grow
    {
      new;
      Reset();
    }

    /** Back to the three-segment start, heading right, no growth pending. */
    method Reset()
      modifies this
      ensures Valid()
      ensures body == StartBody() && direction == Right && !grow
    {
      body := StartBody();
      direction := Right;
      grow := false;
    }

    /** One step: push the new head, then pop the tail or use up the pending
        growth. The heading is left alone. */
    method Move()
      requires Valid()
      modifies this
      ensures Valid()
      ensures body == Advance(old(body), old(direction), old(grow))
      ensures direction == old(direction) && !grow
      ensures Trailing(body, direction)
    {
      AdvanceKeepsContiguous(body, direction, grow);
      AdvanceKeepsTrailing(body, direction, grow);
      var head := body[0];
      var newHead := (head.0 + direction.0, head.1 + direction.1);
      body := [newHead] + body;
      if !grow {
        body := body[..|body| - 1];
      } else {
        grow := false;
      }
    }

    /** The collision test on the current body; it changes nothing. */
    predicate CheckCollision()
      reads this
      requires Valid()
    {
      Collides(body)
    }

    /** A direction request: taken unless it is the exact reverse of the
        current heading. Only the heading can change. */
    method ChangeDirection(requested: Cell)
      requires Valid() && IsDirection(requested)
      modifies this`direction
      ensures Valid()
      ensures direction == Turn(old(direction), requested)
    {
      if (requested.0 * -1, requested.1 * -1) != direction {
        direction := requested;
      }
    }

    /** True when the head is on the food; then growth is armed for the next
        move. A miss leaves a pending growth as it was. */
    method EatFood(food: Cell) returns (eaten: bool)
      requires Valid()
      modifies this`grow
      ensures Valid()
      ensures eaten <==> body[0] == food
      ensures grow == (eaten || old(grow))
    {
      if body[0] == food {
        grow := true;
        return true;
      }
      return false;
    }
  }
}
