/**
 * The game's lifecycle: `GameManager.State` goes from Loading through
 * PostLoading, Ready and InGame to GameOver.  `Update` advances the two loading
 * stages once the scene initializers registered for them are gone,
 * `GameStart` starts a ready game and `GameOver` ends a running one.
 *
 * The camera, audio, event and scene-object side effects are not part of the
 * model; the initializers are a type parameter.
 */
module Lifecycle {

  datatype GameState = Loading | PostLoading | Ready | InGame | GameOver

  /** The position of a state along the lifecycle. */
  function Rank(s: GameState): nat
  {
    match s
    case Loading => 0
    case PostLoading => 1
    case Ready => 2
    case InGame => 3
    case GameOver => 4
  }

  /** The state after `Update()`, given whether the two initializer sets are empty. */
  function Updated(s: GameState, sceneDone: bool, postDone: bool): (r: GameState)
    ensures Rank(s) <= Rank(r) <= Rank(s) + 1
    ensures r != s <==> (s == Loading && sceneDone) || (s == PostLoading && postDone)
  {
    match s
    case Loading => if sceneDone then PostLoading else Loading
    case PostLoading => if postDone then Ready else PostLoading
    case _ => s
  }

  /** The state after `GameStart()`. */
  function Started(s: GameState): (r: GameState)
    ensures r != s <==> s == Ready
    ensures r != s ==> r == InGame
  {
    if s == Ready then InGame else s
  }

  /** The state after `GameOver(won)`, whatever `won` is. */
  function Ended(s: GameState): (r: GameState)
    ensures r != s <==> s == InGame
    ensures r != s ==> r == GameOver
  {
    if s == InGame then GameOver else s
  }

  /** What can happen to a game after `Awake`. */
  datatype Event = Tick(sceneDone: bool, postDone: bool) | Start | Over(won: bool)

  function Apply(s: GameState, e: Event): GameState
  {
    match e
    case Tick(sceneDone, postDone) => Updated(s, sceneDone, postDone)
    case Start => Started(s)
    case Over(_) => Ended(s)
  }

  /** The state after a series of events. */
  function Run(s: GameState, events: seq<Event>): GameState
    decreases |events|
  {
    if events == [] then s else Run(Apply(s, events[0]), events[1..])
  }

  /** One event moves the state at most one stage forward, never back. */
  lemma ApplyForward(s: GameState, e: Event)
    ensures Rank(s) <= Rank(Apply(s, e)) <= Rank(s) + 1
  {
  }

  /** The state never moves backwards, and no series of n events gets further than
   *  n stages. */
  lemma {:induction false} RunForward(s: GameState, events: seq<Event>)
    ensures Rank(s) <= Rank(Run(s, events)) <= Rank(s) + |events|
    decreases |events|
  {
    if events != [] {
      ApplyForward(s, events[0]);
      RunForward(Apply(s, events[0]), events[1..]);
    }
  }

  /** Once the game is over, nothing changes the state: a second `GameOver` in
   *  particular. */
  lemma {:induction false} GameOverFinal(events: seq<Event>)
    ensures Run(GameOver, events) == GameOver
    decreases |events|
  {
    if events != [] {
      GameOverFinal(events[1..]);
    }
  }

  /** Each stage is reached from Loading by the event that leaves the one before. */
  lemma FullRun()
    ensures Run(Loading, [Tick(true, false), Tick(false, true), Start, Over(true)]) == GameOver
    ensures Run(Loading, [Start, Over(false), Tick(false, false)]) == Loading
  {
  }

  /** The `GameManager` component: the state and the two sets of scene
   *  initializers still pending. */
  class GameManager<I(==)> {
    var State: GameState
    var sceneInitializers: set<I>
    var postSceneInitializers: set<I>

    constructor ()
      ensures sceneInitializers == {} && postSceneInitializers == {}
    {
      sceneInitializers := {};
      postSceneInitializers := {};
    }

    /** `Awake()`: the game starts loading. */
    method Awake()
      modifies this
      ensures State == Loading
      ensures sceneInitializers == old(sceneInitializers) && postSceneInitializers == old(postSceneInitializers)
    {
      State := Loading;
    }

    /** `Update()`: leaves a loading stage once its initializers are all gone. */
    method Update()
      modifies this
      ensures State == Updated(old(State), old(sceneInitializers) == {}, old(postSceneInitializers) == {})
      ensures sceneInitializers == old(sceneInitializers) && postSceneInitializers == old(postSceneInitializers)
    {
      match State
      case Loading =>
        if |sceneInitializers| == 0 {
          State := PostLoading;
        }
      case PostLoading =>
        if |postSceneInitializers| == 0 {
          State := Ready;
        }
      case _ =>
    }

    /** `GameStart()`: a ready game starts. */
    method GameStart()
      modifies this
      ensures State == Started(old(State))
      ensures sceneInitializers == old(sceneInitializers) && postSceneInitializers == old(postSceneInitializers)
    {
      if State == Ready {
        State := InGame;
      }
    }

    /** `GameOver(won)`: a running game ends. */
    method GameOver(won: bool)
      modifies this
      ensures State == Ended(old(State))
      ensures sceneInitializers == old(sceneInitializers) && postSceneInitializers == old(postSceneInitializers)
    {
      if State == InGame {
        State := GameState.GameOver;
      }
    }
  }
}
