/** The collision rule of one tick as functions on the cast's value: the food
    rule, the segment rule, the game-over colouring, and their composition.
    The class in handle_collisions_action.dfy is proved to compute these. */
module CollisionRules {
  import opened Actors

  /** Whether a snake's head lies on the food. */
  predicate Eats(snake: seq<Segment>, food: Food)
    requires |snake| > 0
  {
    snake[0].position == food.position
  }

  /** The food rule. Snake 1 is checked first; if it eats, it grows by the
      food's points, the score gains them and the food is reset with the first
      placement. Snake 2 is then checked against the food as it is now, and
      on a match uses the next placement not yet used this tick. */
  function FoodStep(w: World, env: Env, first: Placement, second: Placement): (r: World)
    requires HasHeads(w)
    ensures HasHeads(r)
    ensures r.snake1[0] == w.snake1[0] && r.snake2[0] == w.snake2[0]
    ensures r.messages == w.messages
  {
    var ate1 := Eats(w.snake1, w.food);
    var w1 := if ate1 then
                w.(snake1 := Grown(w.snake1, w.food.points, env),
                   score := w.score + w.food.points,
                   food := Reset(w.food, first))
              else w;
    if Eats(w1.snake2, w1.food) then
      w1.(snake2 := Grown(w1.snake2, w1.food.points, env),
          score := w1.score + w1.food.points,
          food := Reset(w1.food, if ate1 then second else first))
    else w1
  }

  /** Whether a body segment lies on the snake's own head or, failing that,
      on the other snake's head. */
  predicate Hit(s: Segment, own: Point, other: Point)
  {
    s.position == own || s.position == other
  }

  /** The messages one pass over a body adds, segment by segment, in order. */
  function Scan(body: seq<Segment>, own: Point, other: Point, text: string, at: Point): seq<Message>
    decreases |body|
  {
    if body == [] then []
    else
      var n := |body| - 1;
      Scan(body[..n], own, other, text, at) + (if Hit(body[n], own, other) then [Message(text, at)] else [])
  }

  /** The number of body segments that lie on either head. */
  function Hits(body: seq<Segment>, own: Point, other: Point): nat
  {
    |set i | 0 <= i < |body| && Hit(body[i], own, other)|
  }

  /** The segment rule. Snake 1's body (all but its head) is scanned against
      head 1, then head 2, with the text naming the green snake; snake 2's
      body against head 2, then head 1, with the text naming the red snake.
      The flag is raised when a message was added. */
  function SegmentStep(over: bool, w: World, env: Env): (bool, World)
    requires HasHeads(w)
  {
    var head1 := w.snake1[0].position;
    var head2 := w.snake2[0].position;
    var added := Scan(w.snake1[1..], head1, head2, GreenWins, Center(env))
               + Scan(w.snake2[1..], head2, head1, RedWins, Center(env));
    (over || |added| > 0, w.(messages := w.messages + added))
  }

  /** Every segment with its colour replaced by `c`. */
  function Whiten(s: seq<Segment>, c: Color): seq<Segment>
    decreases |s|
  {
    if s == [] then [] else Whiten(s[..|s| - 1], c) + [s[|s| - 1].(color := c)]
  }

  /** The game-over colouring: when the flag is up, both snakes and the food
      turn white. */
  function GameOverStep(over: bool, w: World, env: Env): World
  {
    if over then
      w.(snake1 := Whiten(w.snake1, env.white),
         snake2 := Whiten(w.snake2, env.white),
         food := w.food.(color := env.white))
    else w
  }

  /** One call of the action: nothing happens once the game is over;
      otherwise the three steps run in order. */
  function Tick(over: bool, w: World, env: Env, first: Placement, second: Placement): (bool, World)
    requires !over ==> HasHeads(w)
  {
    if over then (over, w)
    else
      var fed := FoodStep(w, env, first, second);
      var (ended, marked) := SegmentStep(over, fed, env);
      (ended, GameOverStep(ended, marked, env))
  }

  /** What the action receives at one tick: the cast as the other actions
      left it, and what the food's resets yield during this tick. */
  datatype Step = Step(world: World, first: Placement, second: Placement)

  predicate AllHaveHeads(steps: seq<Step>)
  {
    forall k :: 0 <= k < |steps| ==> HasHeads(steps[k].world)
  }

  /** Whether a tick on this cast would end a game that is still running. */
  predicate Ends(step: Step, env: Env)
    requires HasHeads(step.world)
  {
    Tick(false, step.world, env, step.first, step.second).0
  }

  /** The flag after each of a run of calls on one action object. */
  function Flags(over: bool, steps: seq<Step>, env: Env): (r: seq<bool>)
    requires AllHaveHeads(steps)
    ensures |r| == |steps|
    decreases |steps|
  {
    if steps == [] then []
    else
      var now := Tick(over, steps[0].world, env, steps[0].first, steps[0].second).0;
      [now] + Flags(now, steps[1..], env)
  }
}
