/** One play-through: the snake, the food cell and the score, advanced one
    tick at a time (move, then the collision test, then the eat test). */
module GameSession {
  import opened GridModel
  import opened SnakeState
  import opened FoodPlacer

  datatype Outcome = Continuing | Eaten | GameOver

  /** What holds of a session that is still running: a live body and food on
      a free cell of the grid. */
  ghost predicate Running(body: seq<Cell>, food: Cell) {
    Alive(body) && InBounds(food) && food !in body
  }

  /** A fresh session: the start position, food on a free cell, score 0. */
  method StartSession() returns (snake: Snake, food: Cell, score: nat)
    ensures fresh(snake) && snake.Valid()
    ensures snake.body == StartBody() && snake.direction == Right && !snake.grow
    ensures score == 0 && Running(snake.body, food)
  {
    snake := new Snake();
    FreeCellExists(snake.body);
    food := GenerateFood(snake.body);
    score := 0;
  }

  /** The direction requests that arrived since the last tick, applied one by
      one; each is judged against the heading the previous ones left. */
  method PressKeys(snake: Snake, requests: seq<Cell>)
    requires snake.Valid()
    requires forall i :: 0 <= i < |requests| ==> IsDirection(requests[i])
    modifies snake`direction
    ensures snake.Valid()
    ensures snake.direction == TurnAll(old(snake.direction), requests)
  {
    for i := 0 to |requests|
      invariant snake.Valid()
      invariant snake.direction == TurnAll(old(snake.direction), requests[..i])
    {
      assert requests[..i + 1][..i] == requests[..i];
      snake.ChangeDirection(requests[i]);
    }
    assert requests[..|requests|] == requests;
  }

  /** One tick of game logic. A collision after the move ends the session
      before any eat test; otherwise an eaten food adds one to the score and is
      replaced by food on a free cell. */
  method Tick(snake: Snake, food: Cell, score: nat) returns (outcome: Outcome, food': Cell, score': nat)
    requires snake.Valid()
    requires !Collides(Advance(snake.body, snake.direction, snake.grow))
             ==> |snake.body| + (if snake.grow then 1 else 0) < GridWidth * GridHeight
    modifies snake
    ensures snake.Valid()
    ensures snake.body == Advance(old(snake.body), old(snake.direction), old(snake.grow))
    ensures snake.direction == old(snake.direction)
    ensures outcome == GameOver <==> Collides(snake.body)
    ensures outcome == GameOver ==> score' == score && food' == food && !snake.grow
    ensures outcome == Eaten <==> !Collides(snake.body) && snake.body[0] == food
    ensures outcome == Eaten ==> score' == score + 1 && snake.grow && InBounds(food') && food' !in snake.body
    ensures outcome == Continuing ==> score' == score && food' == food && !snake.grow
    ensures old(Running(snake.body, food)) && outcome != GameOver ==> Running(snake.body, food')
  {
    ghost var before, heading, growing := snake.body, snake.direction, snake.grow;
    snake.Move();
    if snake.CheckCollision() {
      return GameOver, food, score;
    }
    if Alive(before) {
      AdvanceAlive(before, heading, growing);
    }
    var eaten := snake.EatFood(food);
    if eaten {
      FreeCellExists(snake.body);
      food' := GenerateFood(snake.body);
      return Eaten, food', score + 1;
    }
    if food !in before {
      FoodStaysFree(before, heading, growing, food);
    }
    return Continuing, food, score;
  }

  /** The opening of a session with the food straight ahead: the first tick
      eats it and scores 1 with the body still three long (growth is only
      armed), and the second tick makes the body four long. */
  method OpeningScenario() returns (first: Outcome, score: nat, lengthAfterFirst: nat, lengthAfterSecond: nat)
    ensures first == Eaten && score == 1
    ensures lengthAfterFirst == 3 && lengthAfterSecond == 4
  {
    var snake := new Snake();
    var food: Cell := (16, 10);
    first, food, score := Tick(snake, food, 0);
    lengthAfterFirst := |snake.body|;
    var second, later;
    second, food, later := Tick(snake, food, score);
    lengthAfterSecond := |snake.body|;
  }
}
