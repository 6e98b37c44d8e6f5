# Collision rule of a two-snake game, in Dafny

This project models `HandleCollisionsAction` from a two-player Snake game.
The game's update loop calls this action once per tick. The action owns one
flag, `_is_game_over`, which starts false. While the flag is down, a call
runs three steps in order:

1. **Food rule.** Snake 1's head is compared with the food. On a match, snake 1
   grows by the food's points, the score gains those points, and the food is
   reset. Snake 2's head is then compared with the food *as it is now*, so
   after a reset it is the new position, and the same happens on a match.
2. **Segment rule.** Each snake's non-head segments are scanned in order. A
   segment that lies on the snake's own head, or failing that on the other
   snake's head, adds one message at the centre of the field and raises the
   flag. The text depends on whose body was hit: every hit on snake 1's body
   says "Game Over! Green Snake Wins!", and every hit on snake 2's body says
   "Game Over! Red Snake Wins!". The loops never stop early, so one tick may
   add several messages.
3. **Game-over colouring.** If the flag is up now, every segment of both snakes
   and the food turn white.

Once the flag is up, later calls do nothing at all.

Layout:

- `actors.dfy` (module `Actors`): the actors as values. A snake is a
  `seq<Segment>`, head first. The food is a position, a points value and a
  colour. There is a message type and the game constants. The class `Cast`
  holds what the action changes in place: two snakes, the food, the score and
  the message list.
- `collision_rules.dfy` (module `CollisionRules`): each step as a function on
  the cast's value (`FoodStep`, `SegmentStep`, `GameOverStep`), one call as
  `Tick`, and the flag over a run of calls as `Flags`.
- `collision_properties.dfy` (module `CollisionProperties`): lemmas stating
  what the rule promises.
- `handle_collisions_action.dfy` (module `HandleCollisions`): the class
  `HandleCollisionsAction` with its `isGameOver` field and one method per
  routine of the original. Each method is proved to compute the matching
  function of `CollisionRules`, and the loops keep invariants that say which
  segments have been handled.

Collaborators whose code is not part of this model are abstracted:

- `food.reset()` picks a random place. Each call of `Execute` takes two
  `Placement` values: what the first and the second reset during that tick
  yield (a position and a points value). Nothing assumes that the new
  position differs from the old one.
- `snake.grow_tail(points)` appends segments at the tail. The model writes the
  grown snake as `snake + env.newTail(snake, points)`, where `newTail` is an
  arbitrary function supplied in `Env`. So the old segments stay, but the
  number and positions of the new ones are not fixed.
- `constants.MAX_X`, `MAX_Y` and `WHITE` are fields of `Env`.
  `int(MAX_X / 2)` is written as natural-number division by 2, which agrees
  with truncating the halved value for the nonnegative sizes the game uses.
- `Point.equals` is equality of the `Point` datatype, that is, equality of
  both coordinates.
- `cast.add_actor("messages", m)` appends `m` to `Cast.messages`.

Three behaviours of the code are easy to miss. The model keeps all three:

- The colouring does not repeat on later ticks. All three steps, colouring
  included, sit inside `if not self._is_game_over`
  (handle_collisions_action.py:29-32). So the colouring happens only on the tick
  that raises the flag, and every later call changes nothing (`OverIsTerminal`,
  `TickColours`).
- A scan acts on every match, not only the first. The loops have no `break`,
  so each matching segment adds its own message (`ScanCounts`,
  `SegmentStepMessages`).
- The text depends only on whose body was hit, not on whose head hit it.
  When a head hits its own body, the message names the other snake. The
  `elif` branches reuse the same text, so when a head hits the other snake's
  body, the message names the snake whose head did the hitting
  (`TextFollowsBody`, `TextFollowsBodyOfSnake2`). Which colour each snake has
  is set outside this file, so the model does not decide which reading was
  intended.

## Model

Source paths are relative to the repository root.

| member | source | states |
|---|---|---|
| `Actors.Center` | snake-complete/snake-complete/snake/game/scripting/handle_collisions_action.py:77-79 | The message position is the field's centre: each coordinate is half the field size, truncated (2·x ≤ MAX_X ≤ 2·x + 1, and the same for y). |
| `Actors.Cast.AddMessage` | snake-complete/snake-complete/snake/game/scripting/handle_collisions_action.py:84 | Adding a message appends it at the end of the message list and changes nothing else in the cast. |
| `CollisionRules.FoodStep` | snake-complete/snake-complete/snake/game/scripting/handle_collisions_action.py:40-59 | The food rule keeps both snakes non-empty, keeps both heads, and adds no message. |
| `CollisionRules.Scan` | snake-complete/snake-complete/snake/game/scripting/handle_collisions_action.py:75-96 | One `for segment in ...` loop as a value: the messages it appends, in segment order, one per segment on the own head or else the other head. Its meaning is stated by `ScanCounts`, `ScanAtMostOnePerSegment`, `ScanSegmentOnBothHeads` and `ScanNonEmpty`. |
| `CollisionRules.SegmentStep` | snake-complete/snake-complete/snake/game/scripting/handle_collisions_action.py:61-119 | The segment rule as a value: both scans appended to the messages, snake 1's body first, and the flag raised when anything was appended. Its meaning is stated by `SegmentStepMessages`, `SegmentStepFlag`, `HeadsAreNotBody`, `TextFollowsBody` and `TextFollowsBodyOfSnake2`. |
| `CollisionRules.Whiten` | snake-complete/snake-complete/snake/game/scripting/handle_collisions_action.py:136-141 | The recolouring of a snake's segments as a value. Its meaning is stated by `WhitenKeepsPositions`. |
| `CollisionRules.GameOverStep` | snake-complete/snake-complete/snake/game/scripting/handle_collisions_action.py:121-142 | The game-over colouring as a value: both snakes and the food white when the flag is up, otherwise unchanged. Its meaning is stated by `GameOverStepColoursOnly`. |
| `CollisionRules.Tick` | snake-complete/snake-complete/snake/game/scripting/handle_collisions_action.py:22-32 | One call of `execute` as a value: nothing once the flag is up, otherwise the food rule, the segment rule and the colouring in order. Its meaning is stated by `OverIsTerminal`, `FlagNeverLowered`, `TickScore` and `TickColours`. |
| `CollisionRules.Flags` | snake-complete/snake-complete/snake/game/scripting/handle_collisions_action.py:18-32 | The flag after each call of a run of calls on one action. It has one entry per call; the flag's behaviour over the run is stated by `FlagsMonotone`, `FlagsExactly` and `FreshActionFlags`. |
| `CollisionProperties.OverIsTerminal` | snake-complete/snake-complete/snake/game/scripting/handle_collisions_action.py:29-32 | When the flag is already up, a call on any cast (even one with an empty snake) returns the same flag and the same cast: no score change, no growth, no food reset, no message, no colour change. |
| `CollisionProperties.FlagNeverLowered` | snake-complete/snake-complete/snake/game/scripting/handle_collisions_action.py:75-119 | A call never turns a raised flag back down; the flag is only ever set to true. |
| `CollisionProperties.FlagsMonotone` | snake-complete/snake-complete/snake/game/scripting/handle_collisions_action.py:18-32 | Over any run of calls on one action, once the flag is up after some call it is up after every later call. If it was up before the run, it is up after every call. |
| `CollisionProperties.FlagsExactly` | snake-complete/snake-complete/snake/game/scripting/handle_collisions_action.py:22-32 | Over a run of calls, the flag after call k is up exactly when it was up before the run, or one of the casts seen by calls 0 to k would end a running game. |
| `CollisionProperties.FreshActionFlags` | snake-complete/snake-complete/snake/game/scripting/handle_collisions_action.py:18-20 | For a newly built action (flag down), the game is over after call k exactly when some call up to k saw a collision. |
| `CollisionProperties.FirstSnakeEats` | snake-complete/snake-complete/snake/game/scripting/handle_collisions_action.py:49-59 | If head 1 lies on the food, snake 1 grows by the food's points and the food is reset with the first placement. Snake 2 is then checked against that new position. If its head lies there, it grows by the new points, the score gains both values, and the food takes the second placement. Otherwise snake 2 is unchanged and the score gains only the first value. |
| `CollisionProperties.FirstSnakeMisses` | snake-complete/snake-complete/snake/game/scripting/handle_collisions_action.py:49-59 | If head 1 misses the food, snake 1 is unchanged. If head 2 then lies on the unchanged food, snake 2 grows by its points, the score gains them, and the food takes the first placement. If both miss, nothing changes. |
| `CollisionProperties.FoodStepScore` | snake-complete/snake-complete/snake/game/scripting/handle_collisions_action.py:49-59 | The food rule adds the food's points to the score once for each head that lay on the food as it was when that head was checked, and changes the score in no other way. |
| `CollisionProperties.TickScore` | snake-complete/snake-complete/snake/game/scripting/handle_collisions_action.py:22-32 | In a whole call, only the food rule changes the score. The segment rule and the colouring leave it alone, and a call after game over leaves it as it was. |
| `CollisionProperties.ScanCounts` | snake-complete/snake-complete/snake/game/scripting/handle_collisions_action.py:75-96 | Scanning a body adds exactly as many messages as there are body segments lying on either head, and all of them have the same text and position. |
| `CollisionProperties.ScanAtMostOnePerSegment` | snake-complete/snake-complete/snake/game/scripting/handle_collisions_action.py:75-96 | Scanning a body adds no more messages than the body has segments. |
| `CollisionProperties.ScanSegmentOnBothHeads` | snake-complete/snake-complete/snake/game/scripting/handle_collisions_action.py:76-87 | Because the two comparisons are if/elif, a segment lying on both heads at once adds exactly one message, not two. |
| `CollisionProperties.ScanNonEmpty` | snake-complete/snake-complete/snake/game/scripting/handle_collisions_action.py:75-96 | Scanning a body adds a message exactly when some body segment lies on one of the two heads, in both directions. |
| `CollisionProperties.SegmentStepMessages` | snake-complete/snake-complete/snake/game/scripting/handle_collisions_action.py:61-119 | The segment rule appends one "Game Over! Green Snake Wins!" message per snake-1 body segment lying on either head, then one "Game Over! Red Snake Wins!" message per snake-2 body segment lying on either head, all at (MAX_X/2, MAX_Y/2). Nothing else in the cast changes. |
| `CollisionProperties.SegmentStepFlag` | snake-complete/snake-complete/snake/game/scripting/handle_collisions_action.py:75-119 | After the segment rule, the flag is up exactly when it was up or a message was added. Equivalently, it is up exactly when it was up or a head lies on a non-head segment of either snake. |
| `CollisionProperties.HeadsAreNotBody` | snake-complete/snake-complete/snake/game/scripting/handle_collisions_action.py:68-73 | Only segments after the head are compared. Two one-segment snakes never trigger the segment rule, even when their heads coincide. |
| `CollisionProperties.TextFollowsBody` | snake-complete/snake-complete/snake/game/scripting/handle_collisions_action.py:87-96 | When snake 2's head lies on a body segment of snake 1, the segment rule adds a message, and the first message it adds says "Game Over! Green Snake Wins!". The text names the snake whose body was hit, not the snake whose head hit it. |
| `CollisionProperties.TextFollowsBodyOfSnake2` | snake-complete/snake-complete/snake/game/scripting/handle_collisions_action.py:110-119 | When snake 1's head lies on a body segment of snake 2, the segment rule adds a message, and the last message it adds says "Game Over! Red Snake Wins!". |
| `CollisionProperties.WhitenKeepsPositions` | snake-complete/snake-complete/snake/game/scripting/handle_collisions_action.py:136-141 | Recolouring keeps the number of segments and each segment's position, and gives every segment the new colour. |
| `CollisionProperties.GameOverStepColoursOnly` | snake-complete/snake-complete/snake/game/scripting/handle_collisions_action.py:127-142 | With the flag up, every segment of both snakes and the food become WHITE. Positions, lengths, the food's points, the score and the messages stay unchanged. With the flag down, nothing changes. |
| `CollisionProperties.TickColours` | snake-complete/snake-complete/snake/game/scripting/handle_collisions_action.py:29-32 | On a call that ends the game, everything ends up white. On a call that does not end it, the cast after the call is exactly the cast after the food rule, so no colour changes. |
| `CollisionProperties.RedWinsOnOwnBody` | snake-complete/snake-complete/snake/game/scripting/handle_collisions_action.py:98-108 | Worked case: on a 900×600 field, with snake 2's head on its own body at (50, 50), the flag is raised and exactly one message, "Game Over! Red Snake Wins!", is added at (450, 300). |
| `CollisionProperties.FirstSnakeScoresTen` | snake-complete/snake-complete/snake/game/scripting/handle_collisions_action.py:49-53 | Worked case: with head 1 on a 10-point food and the score at 0, the score becomes 10, snake 1 grows by 10 points, and the food moves to the first placement. |
| `HandleCollisions.HandleCollisionsAction.constructor` | snake-complete/snake-complete/snake/game/scripting/handle_collisions_action.py:18-20 | A new action starts with the flag down. |
| `HandleCollisions.HandleCollisionsAction.Execute` | snake-complete/snake-complete/snake/game/scripting/handle_collisions_action.py:22-32 | The new flag and cast after a call are exactly `Tick` of the old ones. When the flag was up, the flag and the cast are unchanged. |
| `HandleCollisions.HandleCollisionsAction.HandleFoodCollision` | snake-complete/snake-complete/snake/game/scripting/handle_collisions_action.py:34-59 | The cast after the food routine is `FoodStep` of the cast before it. |
| `HandleCollisions.HandleCollisionsAction.HandleSegmentCollision` | snake-complete/snake-complete/snake/game/scripting/handle_collisions_action.py:61-119 | The flag and cast after the two scanning loops (snake 1's body, then snake 2's) are `SegmentStep` of those before them. The flag is up exactly when it was up or the message list grew. |
| `HandleCollisions.HandleCollisionsAction.ScanSegments` | snake-complete/snake-complete/snake/game/scripting/handle_collisions_action.py:75-96 | One `for segment in ...` loop. It appends, in order, one message with the given text at the given position for each segment lying on the own head or else the other head, and raises the flag exactly when a message was added; nothing else in the cast changes. |
| `HandleCollisions.HandleCollisionsAction.HandleGameOver` | snake-complete/snake-complete/snake/game/scripting/handle_collisions_action.py:121-142 | The cast after the colouring routine is `GameOverStep` of the flag and the cast before it. |
| `HandleCollisions.HandleCollisionsAction.SetColors` | snake-complete/snake-complete/snake/game/scripting/handle_collisions_action.py:136-141 | The loop that sets each segment's colour returns the same segments in the same order, each with its colour replaced by the given one. |

## Left out

- Rendering, keyboard input, the other actions of the game loop, and the
  `Cast`, `Script`, `Actor` and `Point` container classes are not part of this
  model. `Cast` here holds only the actors this action uses.
- `food.reset()` is not part of this model: it uses randomness. Its results
  are the `first` and `second` parameters of `Execute`.
- `snake.grow_tail` is not part of this model. Its appended segments are the
  arbitrary `Env.newTail`.
- The unused `script` argument of `execute` is dropped.
- Colour values are opaque: `WHITE` is whatever `Env.white` holds.
- A missing actor in the cast (a lookup failure in the original) and an empty
  snake while the game is running (indexing its head fails) are not modelled
  as error paths. The original raises in those cases, so `Execute` and `Tick`
  require both snakes to have a head only while the flag is down
  (`HasHeads`). Once the flag is up, a call reads nothing and needs no heads.
  The per-step methods and functions, and the run function `Flags`, require
  heads on every cast they are given.
- `int(MAX_X / 2)` goes through floating point in the original. The model uses
  exact integer halving, so it does not capture rounding for sizes too large to
  be represented exactly as floating-point numbers.
- FirstSnakeScoresTen: does not claim the food moves away from (100, 100), because reset may choose the same cell again.
