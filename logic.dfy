/**
 * The browser-side bookkeeping of html/logic.js: the current game id, the
 * hint counter the page sends with each request, and the running score.
 * The random source and the clock are left to the caller: the new game id
 * is a parameter, and the start times are not modelled.
 */
module Logic {
  import opened Ints

  /** The id the page starts with before any game has been generated. */
  const INITIAL_GAME_ID: U32 := 1337

  class GameLogic {
    var currentGameId: U32
    // The three counters are JavaScript numbers in the page; here they are unbounded.
    var currentHintId: nat
    var correctAnswers: nat
    var totalAnswers: nat

    /** Every answer counted as correct was also counted in the total. */
    ghost predicate Valid()
      reads this
    {
      correctAnswers <= totalAnswers
    }

    constructor()
      ensures Valid()
      ensures currentGameId == INITIAL_GAME_ID && currentHintId == 0
      ensures correctAnswers == 0 && totalAnswers == 0
    {
      currentGameId := INITIAL_GAME_ID;
      currentHintId := 0;
      correctAnswers := 0;
      totalAnswers := 0;
    }

    /**
     * Starts a new game under `id` (the random 32-bit value the browser's
     * crypto source supplies) and restarts the hint count.
     */
    method GenerateGameId(id: U32) returns (r: U32)
      requires Valid()
      modifies this
      ensures Valid()
      ensures r == id && currentGameId == id && currentHintId == 0
      ensures correctAnswers == old(correctAnswers) && totalAnswers == old(totalAnswers)
    {
      currentGameId := id;
      currentHintId := 0;
      r := currentGameId;
    }

    method GetGameId() returns (r: U32)
      ensures r == currentGameId
    {
      r := currentGameId;
    }

    /** Advances the hint counter and returns its new value (a pre-increment). */
    method GetHintId() returns (r: nat)
      requires Valid()
      modifies this
      ensures Valid()
      ensures currentHintId == old(currentHintId) + 1 && r == currentHintId
      ensures r >= 1
      ensures currentGameId == old(currentGameId)
      ensures correctAnswers == old(correctAnswers) && totalAnswers == old(totalAnswers)
    {
      currentHintId := currentHintId + 1;
      r := currentHintId;
    }

    method AddCorrectAnswer()
      requires Valid()
      modifies this
      ensures Valid()
      ensures correctAnswers == old(correctAnswers) + 1
      ensures totalAnswers == old(totalAnswers) + 1
      ensures currentGameId == old(currentGameId) && currentHintId == old(currentHintId)
    {
      correctAnswers := correctAnswers + 1;
      totalAnswers := totalAnswers + 1;
    }

    method AddWrongAnswer()
      requires Valid()
      modifies this
      ensures Valid()
      ensures correctAnswers == old(correctAnswers)
      ensures totalAnswers == old(totalAnswers) + 1
      ensures currentGameId == old(currentGameId) && currentHintId == old(currentHintId)
    {
      totalAnswers := totalAnswers + 1;
    }

    method GetCorrectAnswers() returns (r: nat)
      requires Valid()
      ensures r == correctAnswers && r <= totalAnswers
    {
      r := correctAnswers;
    }

    method GetTotalAnswers() returns (r: nat)
      requires Valid()
      ensures r == totalAnswers && correctAnswers <= r
    {
      r := totalAnswers;
    }
  }

  /** How many of the `outcomes` (true for a correct answer) were correct. */
  function CountCorrect(outcomes: seq<bool>): (n: nat)
    ensures n <= |outcomes|
  {
    if |outcomes| == 0 then 0
    else CountCorrect(outcomes[..|outcomes| - 1]) + (if outcomes[|outcomes| - 1] then 1 else 0)
  }

  /**
   * Records a series of answers, one call of AddCorrectAnswer or
   * AddWrongAnswer per outcome, as the page does after each submission.
   */
  method RecordAnswers(g: GameLogic, outcomes: seq<bool>)
    requires g.Valid()
    modifies g
    ensures g.Valid()
    ensures g.correctAnswers == old(g.correctAnswers) + CountCorrect(outcomes)
    ensures g.totalAnswers == old(g.totalAnswers) + |outcomes|
    ensures g.currentGameId == old(g.currentGameId) && g.currentHintId == old(g.currentHintId)
  {
    var i := 0;
    while i < |outcomes|
      invariant 0 <= i <= |outcomes|
      invariant g.Valid()
      invariant g.correctAnswers == old(g.correctAnswers) + CountCorrect(outcomes[..i])
      invariant g.totalAnswers == old(g.totalAnswers) + i
      invariant g.currentGameId == old(g.currentGameId) && g.currentHintId == old(g.currentHintId)
    {
      assert outcomes[..i + 1][..i] == outcomes[..i];
      if outcomes[i] {
        g.AddCorrectAnswer();
      } else {
        g.AddWrongAnswer();
      }
      i := i + 1;
    }
    assert outcomes[..i] == outcomes;
  }

  /**
   * After a new game starts, the hints requested are numbered 1, 2, 3, …
   * whatever was asked in the game before; the score is untouched.
   */
  method HintsOfNewGame(g: GameLogic, id: U32, count: nat) returns (hints: seq<nat>)
    requires g.Valid()
    modifies g
    ensures g.Valid()
    ensures |hints| == count
    ensures forall k :: 0 <= k < count ==> hints[k] == k + 1
    ensures g.currentGameId == id && g.currentHintId == count
    ensures g.correctAnswers == old(g.correctAnswers) && g.totalAnswers == old(g.totalAnswers)
  {
    var _ := g.GenerateGameId(id);
    hints := [];
    while |hints| < count
      invariant |hints| <= count
      invariant g.Valid()
      invariant forall k :: 0 <= k < |hints| ==> hints[k] == k + 1
      invariant g.currentGameId == id && g.currentHintId == |hints|
      invariant g.correctAnswers == old(g.correctAnswers) && g.totalAnswers == old(g.totalAnswers)
      decreases count - |hints|
    {
      var h := g.GetHintId();
      hints := hints + [h];
    }
  }

  /** A fresh page counts from game 1337 with no hints and no answers. */
  method NewPage() returns (g: GameLogic, id: U32, correct: nat, total: nat)
    ensures fresh(g) && g.Valid()
    ensures id == INITIAL_GAME_ID && correct == 0 && total == 0
  {
    g := new GameLogic();
    id := g.GetGameId();
    correct := g.GetCorrectAnswers();
    total := g.GetTotalAnswers();
  }
}
