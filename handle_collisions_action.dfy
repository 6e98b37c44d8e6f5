/** The collision action as the game runs it: an object with one flag,
    called once per tick on the shared cast, proved to compute the rule of
    CollisionRules. */
module HandleCollisions {
  import opened Actors
  import opened CollisionRules
  import opened CollisionProperties

  class HandleCollisionsAction {
    /** Whether the game is over. */
    var isGameOver: bool

    constructor ()
      ensures !isGameOver
    {
      isGameOver := false;
    }

    /** One tick: when the game is still running, the food rule, the segment
        rule and the game-over colouring, in this order; otherwise nothing.
        `first` and `second` are what the first and the second reset of the
        food during this tick yield. */
    method Execute(cast: Cast, env: Env, first: Placement, second: Placement)
      requires !isGameOver ==> HasHeads(cast.State())
      modifies this, cast
      ensures (isGameOver, cast.State()) == Tick(old(isGameOver), old(cast.State()), env, first, second)
      ensures old(isGameOver) ==> isGameOver && cast.State() == old(cast.State())
    {
      if !isGameOver {
        HandleFoodCollision(cast, env, first, second);
        HandleSegmentCollision(cast, env);
        HandleGameOver(cast, env);
      }
    }

    /** The food rule: each head that lies on the food grows its snake by the
        food's points, adds them to the score and resets the food. */
    method HandleFoodCollision(cast: Cast, env: Env, first: Placement, second: Placement)
      requires HasHeads(cast.State())
      modifies cast
      ensures cast.State() == FoodStep(old(cast.State()), env, first, second)
    {
      var head1 := cast.snake1[0];
      var head2 := cast.snake2[0];
      var resets := 0;

      if head1.position == cast.food.position {
        var points := cast.food.points;
        cast.snake1 := Grown(cast.snake1, points, env);
        cast.score := cast.score + points;
        cast.food := Reset(cast.food, first);
        resets := resets + 1;
      }

      if head2.position == cast.food.position {
        var points := cast.food.points;
        cast.snake2 := Grown(cast.snake2, points, env);
        cast.score := cast.score + points;
        cast.food := Reset(cast.food, if resets == 0 then first else second);
      }
    }

    /** The segment rule: every non-head segment of either snake that lies on
        a head adds a game-over message and raises the flag. */
    method HandleSegmentCollision(cast: Cast, env: Env)
      requires HasHeads(cast.State())
      modifies this, cast
      ensures (isGameOver, cast.State()) == SegmentStep(old(isGameOver), old(cast.State()), env)
      ensures isGameOver <==> old(isGameOver) || |cast.messages| > |old(cast.messages)|
    {
      var head1 := cast.snake1[0].position;
      var segments1 := cast.snake1[1..];
      var head2 := cast.snake2[0].position;
      var segments2 := cast.snake2[1..];
      var center := Center(env);
      ScanSegments(cast, segments1, head1, head2, GreenWins, center);
      ScanSegments(cast, segments2, head2, head1, RedWins, center);
      assert cast.messages == old(cast.messages)
        + (Scan(segments1, head1, head2, GreenWins, center) + Scan(segments2, head2, head1, RedWins, center));
    }

    /** One scanning loop: each segment that lies on `own`, or failing that on
        `other`, adds a message with `text` at `at` and raises the flag. */
    method ScanSegments(cast: Cast, segments: seq<Segment>, own: Point, other: Point, text: string, at: Point)
      modifies this, cast
      ensures cast.State() == old(cast.State()).(messages := old(cast.messages) + Scan(segments, own, other, text, at))
      ensures isGameOver == (old(isGameOver) || |Scan(segments, own, other, text, at)| > 0)
    {
      for i := 0 to |segments|
        invariant cast.State() == old(cast.State()).(messages := old(cast.messages) + Scan(segments[..i], own, other, text, at))
        invariant isGameOver == (old(isGameOver) || |Scan(segments[..i], own, other, text, at)| > 0)
      {
        assert segments[..i + 1][..i] == segments[..i];
        if own == segments[i].position {
          cast.AddMessage(Message(text, at));
          isGameOver := true;
        } else if other == segments[i].position {
          cast.AddMessage(Message(text, at));
          isGameOver := true;
        }
      }
      assert segments[..|segments|] == segments;
    }

    /** The game-over colouring: when the flag is up, every segment of both
        snakes and the food turn white. */
    method HandleGameOver(cast: Cast, env: Env)
      modifies cast
      ensures cast.State() == GameOverStep(isGameOver, old(cast.State()), env)
    {
      if isGameOver {
        cast.snake1 := SetColors(cast.snake1, env.white);
        cast.food := cast.food.(color := env.white);
        cast.snake2 := SetColors(cast.snake2, env.white);
        cast.food := cast.food.(color := env.white);
      }
    }

    /** The segments with the colour of each one set to `c`, one by one. */
    static method SetColors(segments: seq<Segment>, c: Color) returns (r: seq<Segment>)
      ensures |r| == |segments|
      ensures forall k :: 0 <= k < |segments| ==> r[k] == segments[k].(color := c)
      ensures r == Whiten(segments, c)
    {
      r := segments;
      for i := 0 to |r|
        invariant |r| == |segments|
        invariant forall k :: 0 <= k < i ==> r[k] == segments[k].(color := c)
        invariant forall k :: i <= k < |r| ==> r[k] == segments[k]
      {
        r := r[i := r[i].(color := c)];
      }
      WhitenKeepsPositions(segments, c);
    }
  }
}
