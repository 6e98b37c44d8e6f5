/** What the collision rule promises, proved about the functions of
    CollisionRules: the terminal state, the food rule's effects, the score,
    the messages of the segment rule, the flag, and the colouring. */
module CollisionProperties {
  import opened Actors
  import opened CollisionRules

  // ---------------------------------------------------------------------------
  // The terminal state

  /** Once the game is over, a call changes nothing: not the score, the
      snakes, the food, the messages or any colour, and the flag stays up. */
  lemma OverIsTerminal(w: World, env: Env, first: Placement, second: Placement)
    ensures Tick(true, w, env, first, second) == (true, w)
  {
  }

  /** The flag is never lowered by a call. */
  lemma FlagNeverLowered(over: bool, w: World, env: Env, first: Placement, second: Placement)
    requires !over ==> HasHeads(w)
    ensures over ==> Tick(over, w, env, first, second).0
  {
  }

  /** Over a run of calls the flag, once up, stays up, and it is up from the
      first call on when it was up before the run. */
  lemma {:induction false} FlagsMonotone(over: bool, steps: seq<Step>, env: Env)
    requires AllHaveHeads(steps)
    decreases |steps|
    ensures over ==> forall k :: 0 <= k < |steps| ==> Flags(over, steps, env)[k]
    ensures forall i, j :: 0 <= i <= j < |steps| && Flags(over, steps, env)[i] ==> Flags(over, steps, env)[j]
  {
    if steps != [] {
      var now := Tick(over, steps[0].world, env, steps[0].first, steps[0].second).0;
      var rest := steps[1..];
      assert AllHaveHeads(rest) by {
        forall k | 0 <= k < |rest| ensures HasHeads(rest[k].world) {
          assert rest[k] == steps[k + 1];
        }
      }
      FlagsMonotone(now, rest, env);
      var r := Flags(over, steps, env);
      assert r == [now] + Flags(now, rest, env);
      forall i, j | 0 <= i <= j < |steps| && r[i] ensures r[j] {
        if j > 0 {
          assert r[j] == Flags(now, rest, env)[j - 1];
          if i > 0 {
            assert r[i] == Flags(now, rest, env)[i - 1];
          }
        }
      }
    }
  }

  /** Over a run of calls the flag is up after call k exactly when it was up
      before the run or one of the casts seen by calls 0..k would have ended
      a running game. */
  lemma {:induction false} FlagsExactly(over: bool, steps: seq<Step>, env: Env)
    requires AllHaveHeads(steps)
    ensures forall k :: 0 <= k < |steps| ==>
              (Flags(over, steps, env)[k] <==> over || exists i :: 0 <= i <= k && Ends(steps[i], env))
    decreases |steps|
  {
    if steps != [] {
      var now := Tick(over, steps[0].world, env, steps[0].first, steps[0].second).0;
      assert now == (over || Ends(steps[0], env));
      var rest := steps[1..];
      assert AllHaveHeads(rest) by {
        forall k | 0 <= k < |rest| ensures HasHeads(rest[k].world) {
          assert rest[k] == steps[k + 1];
        }
      }
      FlagsExactly(now, rest, env);
      var r := Flags(over, steps, env);
      assert r == [now] + Flags(now, rest, env);
      forall k | 0 <= k < |steps|
        ensures r[k] <==> over || exists i :: 0 <= i <= k && Ends(steps[i], env)
      {
        if k > 0 {
          assert r[k] == Flags(now, rest, env)[k - 1];
          if exists i :: 0 <= i <= k - 1 && Ends(rest[i], env) {
            var i :| 0 <= i <= k - 1 && Ends(rest[i], env);
            assert steps[i + 1] == rest[i];
          }
          if exists i :: 1 <= i <= k && Ends(steps[i], env) {
            var i :| 1 <= i <= k && Ends(steps[i], env);
            assert rest[i - 1] == steps[i];
          }
        }
      }
    }
  }

  /** A fresh action (flag down) ends the game at call k exactly when some
      call up to k saw a collision. */
  lemma FreshActionFlags(steps: seq<Step>, env: Env, k: nat)
    requires AllHaveHeads(steps) && k < |steps|
    ensures Flags(false, steps, env)[k] <==> exists i :: 0 <= i <= k && Ends(steps[i], env)
  {
    FlagsExactly(false, steps, env);
  }

  // ---------------------------------------------------------------------------
  // The food rule

  /** When snake 1's head lies on the food: snake 1 grows by the food's
      points, the score gains them, the food is reset with the first
      placement, and snake 2 is then checked against the reset food. */
  lemma FirstSnakeEats(w: World, env: Env, first: Placement, second: Placement)
    requires HasHeads(w) && Eats(w.snake1, w.food)
    ensures var r := FoodStep(w, env, first, second);
      && r.snake1 == Grown(w.snake1, w.food.points, env)
      && (first.position == w.snake2[0].position ==>
            r.snake2 == Grown(w.snake2, first.points, env)
            && r.score == w.score + w.food.points + first.points
            && r.food == Reset(w.food, second))
      && (first.position != w.snake2[0].position ==>
            r.snake2 == w.snake2
            && r.score == w.score + w.food.points
            && r.food == Reset(w.food, first))
  {
  }

  /** When snake 1's head misses it, only snake 2 can eat, against the
      original food, and the reset uses the first placement. */
  lemma FirstSnakeMisses(w: World, env: Env, first: Placement, second: Placement)
    requires HasHeads(w) && !Eats(w.snake1, w.food)
    ensures var r := FoodStep(w, env, first, second);
      && r.snake1 == w.snake1
      && (Eats(w.snake2, w.food) ==>
            r.snake2 == Grown(w.snake2, w.food.points, env)
            && r.score == w.score + w.food.points
            && r.food == Reset(w.food, first))
      && (!Eats(w.snake2, w.food) ==> r == w)
  {
  }

  /** The food rule changes the score by the food's points once for each head
      that lay on the food as it was when that head was checked. */
  lemma FoodStepScore(w: World, env: Env, first: Placement, second: Placement)
    requires HasHeads(w)
    ensures var ate1 := Eats(w.snake1, w.food);
      var seen := if ate1 then Reset(w.food, first) else w.food;
      FoodStep(w, env, first, second).score
        == w.score + (if ate1 then w.food.points else 0)
                   + (if Eats(w.snake2, seen) then seen.points else 0)
  {
  }

  /** A whole call changes the score only through the food rule. */
  lemma TickScore(over: bool, w: World, env: Env, first: Placement, second: Placement)
    requires !over ==> HasHeads(w)
    ensures Tick(over, w, env, first, second).1.score
              == if over then w.score else FoodStep(w, env, first, second).score
  {
  }

  // ---------------------------------------------------------------------------
  // The segment rule

  /** One pass over a body adds one message per segment lying on either head,
      and every one of them carries the same text and position. */
  lemma {:induction false} ScanCounts(body: seq<Segment>, own: Point, other: Point, text: string, at: Point)
    ensures |Scan(body, own, other, text, at)| == Hits(body, own, other)
    ensures forall k :: 0 <= k < |Scan(body, own, other, text, at)| ==>
              Scan(body, own, other, text, at)[k] == Message(text, at)
    decreases |body|
  {
    if body != [] {
      var n := |body| - 1;
      var pre := body[..n];
      ScanCounts(pre, own, other, text, at);
      var before := set i | 0 <= i < n && Hit(pre[i], own, other);
      var after := set i | 0 <= i < |body| && Hit(body[i], own, other);
      if Hit(body[n], own, other) {
        assert after == before + {n};
        assert n !in before;
      } else {
        assert after == before;
      }
    }
  }

  /** A pass adds at most one message per segment (the two head comparisons
      are alternatives, not separate checks): never more messages than
      body segments. */
  lemma {:induction false} ScanAtMostOnePerSegment(body: seq<Segment>, own: Point, other: Point, text: string, at: Point)
    ensures |Scan(body, own, other, text, at)| <= |body|
    decreases |body|
  {
    if body != [] {
      ScanAtMostOnePerSegment(body[..|body| - 1], own, other, text, at);
    }
  }

  /** A segment lying on both heads at once adds one message, not two. */
  lemma ScanSegmentOnBothHeads(s: Segment, text: string, at: Point)
    ensures Scan([s], s.position, s.position, text, at) == [Message(text, at)]
  {
    assert [s][..0] == [];
  }

  /** A pass adds a message exactly when some segment lies on either head. */
  lemma ScanNonEmpty(body: seq<Segment>, own: Point, other: Point, text: string, at: Point)
    ensures (|Scan(body, own, other, text, at)| > 0)
        <==> (exists i :: 0 <= i < |body| && Hit(body[i], own, other))
  {
  }

  /** Whether a head lies on some segment of a body. */
  predicate HeadOnBody(head: Point, body: seq<Segment>)
  {
    exists i :: 0 <= i < |body| && body[i].position == head
  }

  /** The segment rule adds, for each segment of snake 1's body lying on
      either head, one message saying the green snake wins, then for each
      segment of snake 2's body lying on either head, one saying the red
      snake wins, all at the centre of the field; nothing else changes. */
  lemma SegmentStepMessages(over: bool, w: World, env: Env)
    requires HasHeads(w)
    ensures var head1 := w.snake1[0].position;
      var head2 := w.snake2[0].position;
      var r := SegmentStep(over, w, env).1;
      r == w.(messages := r.messages)
      && r.messages == w.messages
           + seq(Hits(w.snake1[1..], head1, head2), _ => Message(GreenWins, Point(env.maxX / 2, env.maxY / 2)))
           + seq(Hits(w.snake2[1..], head2, head1), _ => Message(RedWins, Point(env.maxX / 2, env.maxY / 2)))
  {
    var head1 := w.snake1[0].position;
    var head2 := w.snake2[0].position;
    var at := Center(env);
    var a := Scan(w.snake1[1..], head1, head2, GreenWins, at);
    var b := Scan(w.snake2[1..], head2, head1, RedWins, at);
    ScanCounts(w.snake1[1..], head1, head2, GreenWins, at);
    ScanCounts(w.snake2[1..], head2, head1, RedWins, at);
    assert a == seq(Hits(w.snake1[1..], head1, head2), _ => Message(GreenWins, at));
    assert b == seq(Hits(w.snake2[1..], head2, head1), _ => Message(RedWins, at));
  }

  /** After the segment rule the flag is up exactly when it was already up,
      or a head lies on a non-head segment of either snake; that is, exactly
      when it was up or a message was added. */
  lemma SegmentStepFlag(over: bool, w: World, env: Env)
    requires HasHeads(w)
    ensures var head1 := w.snake1[0].position;
      var head2 := w.snake2[0].position;
      var (ended, r) := SegmentStep(over, w, env);
      && (ended <==> over || |r.messages| > |w.messages|)
      && (ended <==> over || HeadOnBody(head1, w.snake1[1..]) || HeadOnBody(head2, w.snake1[1..])
                          || HeadOnBody(head1, w.snake2[1..]) || HeadOnBody(head2, w.snake2[1..]))
  {
    var head1 := w.snake1[0].position;
    var head2 := w.snake2[0].position;
    var at := Center(env);
    var body1 := w.snake1[1..];
    var body2 := w.snake2[1..];
    ScanNonEmpty(body1, head1, head2, GreenWins, at);
    ScanNonEmpty(body2, head2, head1, RedWins, at);
    if exists i :: 0 <= i < |body1| && Hit(body1[i], head1, head2) {
      var i :| 0 <= i < |body1| && Hit(body1[i], head1, head2);
      assert HeadOnBody(head1, body1) || HeadOnBody(head2, body1);
    }
    if exists i :: 0 <= i < |body2| && Hit(body2[i], head2, head1) {
      var i :| 0 <= i < |body2| && Hit(body2[i], head2, head1);
      assert HeadOnBody(head1, body2) || HeadOnBody(head2, body2);
    }
    if HeadOnBody(head1, body1) || HeadOnBody(head2, body1) {
      var i :| 0 <= i < |body1| && (body1[i].position == head1 || body1[i].position == head2);
      assert Hit(body1[i], head1, head2);
    }
    if HeadOnBody(head1, body2) || HeadOnBody(head2, body2) {
      var i :| 0 <= i < |body2| && (body2[i].position == head1 || body2[i].position == head2);
      assert Hit(body2[i], head2, head1);
    }
  }

  /** A head is not compared with itself: two one-segment snakes never end
      the game, even when their heads coincide. */
  lemma HeadsAreNotBody(over: bool, w: World, env: Env)
    requires |w.snake1| == 1 && |w.snake2| == 1
    ensures SegmentStep(over, w, env) == (over, w)
  {
    var at := Center(env);
    assert w.snake1[1..] == [] && w.snake2[1..] == [];
    assert Scan(w.snake1[1..], w.snake1[0].position, w.snake2[0].position, GreenWins, at) == [];
    assert Scan(w.snake2[1..], w.snake2[0].position, w.snake1[0].position, RedWins, at) == [];
    assert w.messages + ([] + []) == w.messages;
    assert w.(messages := w.messages) == w;
  }

  /** The text names the snake whose body was hit, whichever head hit it:
      when head 2 lies on snake 1's body, the first message the segment rule
      adds says the green snake wins. */
  lemma TextFollowsBody(over: bool, w: World, env: Env, i: nat)
    requires HasHeads(w) && 1 <= i < |w.snake1|
    requires w.snake1[i].position == w.snake2[0].position
    ensures |SegmentStep(over, w, env).1.messages| > |w.messages|
    ensures SegmentStep(over, w, env).1.messages[|w.messages|] == Message(GreenWins, Center(env))
  {
    var head1 := w.snake1[0].position;
    var head2 := w.snake2[0].position;
    var at := Center(env);
    var body1 := w.snake1[1..];
    assert Hit(body1[i - 1], head1, head2);
    ScanNonEmpty(body1, head1, head2, GreenWins, at);
    ScanCounts(body1, head1, head2, GreenWins, at);
    var a := Scan(body1, head1, head2, GreenWins, at);
    var b := Scan(w.snake2[1..], head2, head1, RedWins, at);
    assert (w.messages + a + b)[|w.messages|] == a[0];
  }

  /** The mirror case: when head 1 lies on snake 2's body, the last message
      the segment rule adds says the red snake wins. */
  lemma TextFollowsBodyOfSnake2(over: bool, w: World, env: Env, i: nat)
    requires HasHeads(w) && 1 <= i < |w.snake2|
    requires w.snake2[i].position == w.snake1[0].position
    ensures |SegmentStep(over, w, env).1.messages| > |w.messages|
    ensures var m := SegmentStep(over, w, env).1.messages;
      m[|m| - 1] == Message(RedWins, Center(env))
  {
    var head1 := w.snake1[0].position;
    var head2 := w.snake2[0].position;
    var at := Center(env);
    var body2 := w.snake2[1..];
    assert Hit(body2[i - 1], head2, head1);
    ScanNonEmpty(body2, head2, head1, RedWins, at);
    ScanCounts(body2, head2, head1, RedWins, at);
    var a := Scan(w.snake1[1..], head1, head2, GreenWins, at);
    var b := Scan(body2, head2, head1, RedWins, at);
    assert (w.messages + a + b)[|w.messages| + |a| + |b| - 1] == b[|b| - 1];
  }

  // ---------------------------------------------------------------------------
  // The colouring

  /** Whitening keeps every segment's position and gives each the colour. */
  lemma {:induction false} WhitenKeepsPositions(s: seq<Segment>, c: Color)
    ensures |Whiten(s, c)| == |s|
    ensures forall k :: 0 <= k < |s| ==> Whiten(s, c)[k] == s[k].(color := c)
    decreases |s|
  {
    if s != [] {
      WhitenKeepsPositions(s[..|s| - 1], c);
    }
  }

  /** The colouring changes colours only: when the flag is up every segment of
      both snakes and the food are white and every position stays; when it is
      down nothing changes. Score and messages are never touched. */
  lemma GameOverStepColoursOnly(over: bool, w: World, env: Env)
    ensures var r := GameOverStep(over, w, env);
      && r.score == w.score && r.messages == w.messages
      && |r.snake1| == |w.snake1| && |r.snake2| == |w.snake2|
      && r.food.position == w.food.position && r.food.points == w.food.points
      && (forall k :: 0 <= k < |w.snake1| ==> r.snake1[k].position == w.snake1[k].position)
      && (forall k :: 0 <= k < |w.snake2| ==> r.snake2[k].position == w.snake2[k].position)
      && (over ==> r.food.color == env.white
                   && (forall k :: 0 <= k < |w.snake1| ==> r.snake1[k].color == env.white)
                   && (forall k :: 0 <= k < |w.snake2| ==> r.snake2[k].color == env.white))
      && (!over ==> r == w)
  {
    WhitenKeepsPositions(w.snake1, env.white);
    WhitenKeepsPositions(w.snake2, env.white);
  }

  /** The colouring happens only on the call that raises the flag: a call on
      a running game that ends it leaves everything white, and one that does
      not end it changes no colour. */
  lemma TickColours(w: World, env: Env, first: Placement, second: Placement)
    requires HasHeads(w)
    ensures var fed := FoodStep(w, env, first, second);
      var (ended, r) := Tick(false, w, env, first, second);
      && (ended ==> r.food.color == env.white
                    && (forall k :: 0 <= k < |r.snake1| ==> r.snake1[k].color == env.white)
                    && (forall k :: 0 <= k < |r.snake2| ==> r.snake2[k].color == env.white))
      && (!ended ==> r == fed)
  {
    var fed := FoodStep(w, env, first, second);
    var (ended, marked) := SegmentStep(false, fed, env);
    SegmentStepFlag(false, fed, env);
    GameOverStepColoursOnly(ended, marked, env);
  }

  // ---------------------------------------------------------------------------
  // Worked cases

  /** Snake 2's head on its own body at (50, 50), on a 900 by 600 field: the
      game ends with one message saying the red snake wins, at (450, 300). */
  lemma RedWinsOnOwnBody(c: Color, white: Color, tail: (seq<Segment>, int) -> seq<Segment>)
    ensures var env := Env(900, 600, white, tail);
      var s1 := [Segment(Point(10, 10), c), Segment(Point(11, 10), c)];
      var s2 := [Segment(Point(50, 50), c), Segment(Point(51, 50), c), Segment(Point(50, 50), c)];
      var w := World(s1, s2, Food(Point(100, 100), 10, c), 0, []);
      var (ended, r) := SegmentStep(false, w, env);
      ended && r.messages == [Message(RedWins, Point(450, 300))]
  {
    var at := Point(450, 300);
    var s1 := [Segment(Point(10, 10), c), Segment(Point(11, 10), c)];
    var s2 := [Segment(Point(50, 50), c), Segment(Point(51, 50), c), Segment(Point(50, 50), c)];
    assert s1[1..][..0] == [];
    assert Scan(s1[1..], Point(10, 10), Point(50, 50), GreenWins, at) == [];
    assert s2[1..][..1] == [Segment(Point(51, 50), c)];
    assert s2[1..][..1][..0] == [];
    assert Scan(s2[1..][..1], Point(50, 50), Point(10, 10), RedWins, at) == [];
    assert Scan(s2[1..], Point(50, 50), Point(10, 10), RedWins, at) == [Message(RedWins, at)];
  }

  /** Snake 1's head on the food at (100, 100), worth 10 points, score 0:
      the score becomes 10 and snake 1 grows by 10 points. */
  lemma FirstSnakeScoresTen(c: Color, white: Color, tail: (seq<Segment>, int) -> seq<Segment>, first: Placement, second: Placement)
    requires first.position != Point(50, 50)
    ensures var env := Env(900, 600, white, tail);
      var s1 := [Segment(Point(100, 100), c)];
      var s2 := [Segment(Point(50, 50), c)];
      var w := World(s1, s2, Food(Point(100, 100), 10, c), 0, []);
      var r := FoodStep(w, env, first, second);
      r.score == 10 && r.snake1 == s1 + tail(s1, 10) && r.food.position == first.position
  {
  }
}
