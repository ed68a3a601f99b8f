/** The top-level screen state machine of the application (App.tsx). */
module Screens {
  import opened Types

  /** The three fields the application component keeps. */
  datatype AppState = AppState(gameState: GameState, selectedChar: Option<Character>, finalScore: int)

  /** The screens the render guards can show. */
  datatype View = CharacterSelectionView | GameView | GameOverView

  /** Freshly mounted: the menu, nobody selected, final score 0. */
  const INITIAL: AppState := AppState(Menu, None, 0)

  /** Picking a character starts a run with it; the last final score is kept. */
  function SelectCharacter(st: AppState, c: Character): (r: AppState)
    ensures r.gameState == Playing && r.selectedChar == Some(c)
    ensures r.finalScore == st.finalScore
  {
    st.(selectedChar := Some(c), gameState := Playing)
  }

  /** A reported game over records the score and shows the game-over screen, from any state. */
  function EndGame(st: AppState, score: int): (r: AppState)
    ensures r.gameState == GameOver && r.finalScore == score
    ensures r.selectedChar == st.selectedChar
  {
    st.(finalScore := score, gameState := GameOver)
  }

  /** Restarting plays again with the same character; the final score is not reset. */
  function RestartGame(st: AppState): (r: AppState)
    ensures r.gameState == Playing
    ensures r.selectedChar == st.selectedChar && r.finalScore == st.finalScore
  {
    st.(gameState := Playing)
  }

  /** Going home shows the menu and forgets the character; the final score is kept. */
  function GoToMenu(st: AppState): (r: AppState)
    ensures r.gameState == Menu && r.selectedChar == None
    ensures r.finalScore == st.finalScore
  {
    st.(gameState := Menu, selectedChar := None)
  }

  /** The screens whose render guard holds. */
  function Views(st: AppState): (vs: set<View>)
    ensures CharacterSelectionView in vs <==> st.gameState == Menu
    ensures GameView in vs <==> st.gameState == Playing && st.selectedChar.Some?
    ensures GameOverView in vs <==> st.gameState == GameOver && st.selectedChar.Some?
  {
    (if st.gameState == Menu then {CharacterSelectionView} else {})
    + (if st.gameState == Playing && st.selectedChar.Some? then {GameView} else {})
    + (if st.gameState == GameOver && st.selectedChar.Some? then {GameOverView} else {})
  }

  /** The guards are mutually exclusive, and a blank page is exactly a run without a character. */
  lemma AtMostOneView(st: AppState)
    ensures |Views(st)| <= 1
    ensures Views(st) == {} <==> st.gameState != Menu && st.selectedChar.None?
  {
    var vs := Views(st);
    if st.gameState == Menu {
      assert vs == {CharacterSelectionView};
    } else if st.selectedChar.None? {
      assert vs == {};
    } else if st.gameState == Playing {
      assert vs == {GameView};
    } else {
      assert vs == {GameOverView};
    }
  }

  /** What the user or the game can trigger: one event per handler. */
  datatype Event = Select(c: Character) | ReportGameOver(score: int) | Restart | BackToMenu

  function Apply(st: AppState, e: Event): AppState
  {
    match e
    case Select(c) => SelectCharacter(st, c)
    case ReportGameOver(score) => EndGame(st, score)
    case Restart => RestartGame(st)
    case BackToMenu => GoToMenu(st)
  }

  /**
   * An event can fire only from a screen that is showing and wires its handler:
   * selection from the character picker; game over and back from the game;
   * restart and home from the game-over screen. A frame in which several bombs hit
   * reports game over once per bomb while the game is still mounted, so further
   * reports also arrive once the state has reached the game-over screen.
   */
  predicate Wired(st: AppState, e: Event)
  {
    match e
    case Select(_) => CharacterSelectionView in Views(st)
    case ReportGameOver(_) => GameView in Views(st) || GameOverView in Views(st)
    case Restart => GameOverView in Views(st)
    case BackToMenu => GameView in Views(st) || GameOverView in Views(st)
  }

  /** Outside the menu a character is always selected. */
  predicate Invariant(st: AppState)
  {
    st.gameState != Menu ==> st.selectedChar.Some?
  }

  /** The state after a sequence of events. */
  function Run(st: AppState, events: seq<Event>): AppState
    decreases |events|
  {
    if events == [] then st else Run(Apply(st, events[0]), events[1..])
  }

  /** Every event of the sequence is wired on the screen showing when it fires. */
  predicate WiredRun(st: AppState, events: seq<Event>)
    decreases |events|
  {
    events == [] || (Wired(st, events[0]) && WiredRun(Apply(st, events[0]), events[1..]))
  }

  /** A wired event leads to a state satisfying the invariant, whatever state it fired in. */
  lemma WiredEventEstablishesInvariant(st: AppState, e: Event)
    requires Wired(st, e)
    ensures Invariant(Apply(st, e))
  {
  }

  /**
   * Further game-over reports in the same frame arrive after the state already left
   * the game screen; they keep the invariant too, from any state but the menu.
   */
  lemma RepeatedGameOverKeepsInvariant(st: AppState, score: int)
    requires Invariant(st) && st.gameState != Menu
    ensures Invariant(EndGame(st, score)) && Views(EndGame(st, score)) == {GameOverView}
  {
  }

  /** Unwired, a game over fired from the menu would leave no screen showing. */
  lemma UnwiredGameOverBlanksScreen(c: Character)
    ensures Views(EndGame(INITIAL, 7)) == {}
    ensures Views(EndGame(SelectCharacter(INITIAL, c), 7)) == {GameOverView}
  {
  }

  /** The game-over events of a frame's reports, in the order the bombs were hit. */
  function ReportEvents(reports: seq<int>): (evs: seq<Event>)
    ensures |evs| == |reports|
    ensures forall i :: 0 <= i < |reports| ==> evs[i] == ReportGameOver(reports[i])
  {
    seq(|reports|, i requires 0 <= i < |reports| => ReportGameOver(reports[i]))
  }

  /**
   * All game-over reports of one frame, whatever their scores, form a wired run from the
   * game screen; the game-over screen then shows the last bomb's score.
   */
  lemma {:induction false} FrameReportsWired(st: AppState, reports: seq<int>)
    requires st.gameState != Menu && st.selectedChar.Some? && reports != []
    ensures WiredRun(st, ReportEvents(reports))
    ensures Run(st, ReportEvents(reports)) == AppState(GameOver, st.selectedChar, reports[|reports| - 1])
    decreases |reports|
  {
    var evs := ReportEvents(reports);
    var next := EndGame(st, reports[0]);
    assert evs[1..] == ReportEvents(reports[1..]);
    if |reports| == 1 {
      assert evs[1..] == [];
    } else {
      FrameReportsWired(next, reports[1..]);
    }
  }

  /** Every state reachable by wired events keeps the invariant and shows exactly one screen. */
  lemma {:induction false} ReachableStatesShowOneScreen(st: AppState, events: seq<Event>)
    requires Invariant(st) && WiredRun(st, events)
    ensures Invariant(Run(st, events))
    ensures |Views(Run(st, events))| == 1
    decreases |events|
  {
    if events == [] {
      AtMostOneView(st);
    } else {
      WiredEventEstablishesInvariant(st, events[0]);
      ReachableStatesShowOneScreen(Apply(st, events[0]), events[1..]);
    }
  }

  /** The application component: the three fields and one method per handler. */
  class App {
    var gameState: GameState
    var selectedChar: Option<Character>
    var finalScore: int

    function State(): AppState
      reads this
    {
      AppState(gameState, selectedChar, finalScore)
    }

    constructor ()
      ensures State() == INITIAL
    {
      gameState := Menu;
      selectedChar := None;
      finalScore := 0;
    }

    method HandleCharacterSelect(c: Character)
      modifies this
      ensures State() == SelectCharacter(old(State()), c)
    {
      selectedChar := Some(c);
      gameState := Playing;
    }

    method HandleGameOver(score: int)
      modifies this
      ensures State() == EndGame(old(State()), score)
    {
      finalScore := score;
      gameState := GameOver;
    }

    method HandleRestart()
      modifies this
      ensures State() == RestartGame(old(State()))
    {
      gameState := Playing;
    }

    method HandleBackToMenu()
      modifies this
      ensures State() == GoToMenu(old(State()))
    {
      gameState := Menu;
      selectedChar := None;
    }

    /** Which screen the render shows. */
    function Screen(): (vs: set<View>)
      reads this
      ensures |vs| <= 1
      ensures Invariant(State()) ==> |vs| == 1
    {
      AtMostOneView(State());
      Views(State())
    }
  }
}
