/** The actors that the collision action reads and changes, reduced to the
    state the action touches: positions, colours, points, texts. */
module Actors {

  /** A grid coordinate; two positions collide when both coordinates agree. */
  datatype Point = Point(x: int, y: int)

  /** A colour value; only the game-over colour is ever chosen by the action. */
  datatype Color = Color(red: int, green: int, blue: int)

  /** One cell of a snake's body. */
  datatype Segment = Segment(position: Point, color: Color)

  /** The single food item: where it lies, what it is worth, how it is drawn. */
  datatype Food = Food(position: Point, points: int, color: Color)

  /** What one call of the food's reset decides: a new position and a new value. */
  datatype Placement = Placement(position: Point, points: int)

  /** A text actor added to the "messages" group of the cast. */
  datatype Message = Message(text: string, position: Point)

  /** The game constants the action reads, and the snake's rule for what its
      growth appends (newTail(segments, points) is the list of segments that
      growing a snake with these segments by that many points adds at its tail). */
  datatype Env = Env(maxX: nat, maxY: nat, white: Color,
                     newTail: (seq<Segment>, int) -> seq<Segment>)

  const GreenWins: string := "Game Over! Green Snake Wins!"
  const RedWins: string := "Game Over! Red Snake Wins!"

  /** The centre of the play field, each coordinate halved and truncated. */
  function Center(env: Env): (p: Point)
    ensures 0 <= 2 * p.x <= env.maxX <= 2 * p.x + 1
    ensures 0 <= 2 * p.y <= env.maxY <= 2 * p.y + 1
  {
    Point(env.maxX / 2, env.maxY / 2)
  }

  /** A snake after growing by `points`: the old segments stay, in order, and
      the snake's growth rule appends new ones at the tail. */
  function Grown(snake: seq<Segment>, points: int, env: Env): (r: seq<Segment>)
    ensures |snake| <= |r| && r[..|snake|] == snake
  {
    snake + env.newTail(snake, points)
  }

  /** The food after a reset: it moves and takes a new value; its colour stays. */
  function Reset(food: Food, p: Placement): (r: Food)
    ensures r.position == p.position && r.points == p.points && r.color == food.color
  {
    food.(position := p.position, points := p.points)
  }

  /** Everything in the cast that the action reads or writes. */
  datatype World = World(snake1: seq<Segment>, snake2: seq<Segment>, food: Food,
                         score: int, messages: seq<Message>)

  /** Both snakes have a head (the action reads the first segment of each). */
  predicate HasHeads(w: World)
  {
    |w.snake1| > 0 && |w.snake2| > 0
  }

  /** The cast of actors, as shared in-place state: the two snakes under
      "snake" (first and second), the food under "foods", the score under
      "scores" and the list under "messages". */
  class Cast {
    var snake1: seq<Segment>
    var snake2: seq<Segment>
    var food: Food
    var score: int
    var messages: seq<Message>

    /** The abstract value of the cast. */
    function State(): World
      reads this
    {
      World(snake1, snake2, food, score, messages)
    }

    /** Adds an actor to the "messages" group. */
    method AddMessage(m: Message)
      modifies this
      ensures State() == old(State()).(messages := old(messages) + [m])
    {
      messages := messages + [m];
    }
  }
}
