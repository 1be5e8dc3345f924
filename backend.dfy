/**
 * The game logic of the web backend (src/backend/main.rs) once a request has
 * been decoded: which catalog entry a game id selects, which hint lines a
 * request for hint `n` shows, when a game is resolved, the name prediction
 * behind the search box, and the answer check.
 */
module Backend {
  import opened Wrappers
  import opened Ints
  import opened Text

  /**
   * A catalog entry as the backend reads it. The two `HashSet`s are held as the
   * sequence their iterator visits, so that "the first element" is defined; the
   * contracts below only ever use that it is some element of the set.
   */
  datatype PlayerInfo = PlayerInfo(
    name: string,
    birthDate: string,
    birthPlace: string,
    yearOfGm: I32,
    chessComName: seq<string>,
    peakRating: U32,
    citizenshipCountry: string,
    images: seq<string>)

  datatype Line = Line(category: string, answer: string, animated: bool)

  datatype PlayerDisplay = PlayerDisplay(name: string, lines: seq<Line>, image: string)

  datatype GameResultDisplay = GameResultDisplay(success: bool, time: string, player: PlayerDisplay)

  /** The last hint: every line is shown and so is the picture. */
  const MAX_HINT: U32 := 7

  /** The hint categories in the order they are revealed. */
  const Categories: seq<string> := [
    "Peak rating", "Birth date", "Year of GM title", "Citizenship", "Birth place", "Chess.com username"
  ]

  function Min(a: nat, b: nat): (m: nat)
    ensures m <= a && m <= b && (m == a || m == b)
  {
    if a < b then a else b
  }

  // ---------------------------------------------------------------------------
  // Which player a game is about

  /** `game_id as usize % len`: the catalog index a game id selects. */
  function TargetIndex(catalog: seq<PlayerInfo>, gameId: U32): (k: nat)
    requires |catalog| > 0
    ensures k < |catalog|
    ensures gameId < |catalog| ==> k == gameId
    ensures exists q: nat :: gameId == q * |catalog| + k
  {
    var k := gameId % |catalog|;
    assert gameId == (gameId / |catalog|) * |catalog| + k;
    k
  }

  /** The name a game expects as its answer (`get_answer`). */
  function GetAnswer(catalog: seq<PlayerInfo>, gameId: U32): (name: string)
    requires |catalog| > 0
    ensures exists k | 0 <= k < |catalog| :: k == TargetIndex(catalog, gameId) && catalog[k].name == name
  {
    var info := catalog[TargetIndex(catalog, gameId)];
    info.name
  }

  /** With three players, game 5 is about the player at position 2. */
  lemma GameFiveOfThree(catalog: seq<PlayerInfo>)
    requires |catalog| == 3
    ensures TargetIndex(catalog, 5) == 2 && GetAnswer(catalog, 5) == catalog[2].name
  {
  }

  // ---------------------------------------------------------------------------
  // The hint lines

  /** `set.iter().nth(0).unwrap_or(default)`: some element of the set, or the default when it is empty. */
  function FirstOr(s: seq<string>, default: string): (r: string)
    ensures |s| == 0 ==> r == default
    ensures |s| > 0 ==> r in s
  {
    if |s| == 0 then default else s[0]
  }

  /** The text of the line for category `i` of `info`. */
  function AnswerOf(info: PlayerInfo, i: nat): (r: string)
    requires i < |Categories|
    ensures i == 0 ==> ParseU32(r) == Some(info.peakRating)
    ensures i == 1 ==> r == info.birthDate
    ensures i == 2 ==> 1 <= |r| && (r[0] == '-' <==> info.yearOfGm < 0)
    ensures i == 2 ==> ParseDecimal(if info.yearOfGm < 0 then r[1..] else r) ==
                       Some(if info.yearOfGm < 0 then -(info.yearOfGm as int) else info.yearOfGm as int)
    ensures i == 3 ==> r == info.citizenshipCountry
    ensures i == 4 ==> r == info.birthPlace
    ensures i == 5 ==> if |info.chessComName| == 0 then r == "Unknown" else r in info.chessComName
  {
    if i == 0 then ParseU32NatToString(info.peakRating); NatToString(info.peakRating)
    else if i == 1 then info.birthDate
    else if i == 2 then ParseIntToString(info.yearOfGm); IntToString(info.yearOfGm)
    else if i == 3 then info.citizenshipCountry
    else if i == 4 then info.birthPlace
    else FirstOr(info.chessComName, "Unknown")
  }

  /**
   * `get_player_display`: nothing past the last hint; otherwise the selected
   * player's name, the first `min(hint, 6)` lines in category order with the
   * line of the current hint animated, and a picture of the player if any.
   */
  function GetPlayerDisplay(catalog: seq<PlayerInfo>, gameId: U32, hintNr: U32): (r: Option<PlayerDisplay>)
    requires |catalog| > 0
    ensures r.None? <==> hintNr > MAX_HINT
    ensures r.Some? ==> r.value.name == GetAnswer(catalog, gameId)
    ensures r.Some? ==> |r.value.lines| == Min(hintNr, |Categories|)
    ensures r.Some? ==> forall i | 0 <= i < |r.value.lines| ::
              && r.value.lines[i].category == Categories[i]
              && r.value.lines[i].answer == AnswerOf(catalog[TargetIndex(catalog, gameId)], i)
              && (r.value.lines[i].animated <==> hintNr == i + 1)
    ensures r.Some? ==> var info := catalog[TargetIndex(catalog, gameId)];
              if |info.images| == 0 then r.value.image == "" else r.value.image in info.images
  {
    var info := catalog[TargetIndex(catalog, gameId)];
    var lines := [
      Line("Peak rating", NatToString(info.peakRating), hintNr == 1),
      Line("Birth date", info.birthDate, hintNr == 2),
      Line("Year of GM title", IntToString(info.yearOfGm), hintNr == 3),
      Line("Citizenship", info.citizenshipCountry, hintNr == 4),
      Line("Birth place", info.birthPlace, hintNr == 5),
      Line("Chess.com username", FirstOr(info.chessComName, "Unknown"), hintNr == 6)
    ];
    if hintNr > MAX_HINT then None
    else
      var image := FirstOr(info.images, "");
      var lastHint := Min(hintNr, |lines|);
      Some(PlayerDisplay(info.name, lines[0..lastHint], image))
  }

  /** Each hint shows the lines of the previous one, in the same order with the same text, and one more until all six are out. */
  lemma DisplayGrows(catalog: seq<PlayerInfo>, gameId: U32, h: U32)
    requires |catalog| > 0 && h < MAX_HINT
    ensures var before, after := GetPlayerDisplay(catalog, gameId, h), GetPlayerDisplay(catalog, gameId, h + 1);
            && before.Some? && after.Some?
            && |after.value.lines| == Min(h + 1, |Categories|)
            && |before.value.lines| <= |after.value.lines|
            && forall i | 0 <= i < |before.value.lines| ::
                 && before.value.lines[i].category == after.value.lines[i].category
                 && before.value.lines[i].answer == after.value.lines[i].answer
  {
  }

  /** At most one line is animated, and none at hint 0 (nothing shown) or at the last hint (only the picture is new). */
  lemma AtMostOneAnimated(catalog: seq<PlayerInfo>, gameId: U32, h: U32)
    requires |catalog| > 0 && h <= MAX_HINT
    ensures var lines := GetPlayerDisplay(catalog, gameId, h).value.lines;
            && (forall i, j | 0 <= i < j < |lines| :: !(lines[i].animated && lines[j].animated))
            && (h == 0 || h == MAX_HINT ==> forall i | 0 <= i < |lines| :: !lines[i].animated)
            && (1 <= h <= 6 ==> lines[h - 1].animated)
  {
  }

  /** The peak-rating line reads back as the player's peak rating. */
  lemma RatingLineReadsBack(catalog: seq<PlayerInfo>, gameId: U32, h: U32)
    requires |catalog| > 0 && 1 <= h <= MAX_HINT
    ensures var d := GetPlayerDisplay(catalog, gameId, h).value;
            ParseU32(d.lines[0].answer) == Some(catalog[TargetIndex(catalog, gameId)].peakRating)
  {
    ParseU32NatToString(catalog[TargetIndex(catalog, gameId)].peakRating);
  }

  // ---------------------------------------------------------------------------
  // Resolving a game

  /** `get_player_display(.., MAX_HINT).unwrap_or(empty)`: the display with every line and the picture. */
  function FullDisplay(catalog: seq<PlayerInfo>, gameId: U32): (d: PlayerDisplay)
    requires |catalog| > 0
    ensures d.name == GetAnswer(catalog, gameId)
    ensures |d.lines| == |Categories|
    ensures forall i | 0 <= i < |d.lines| :: d.lines[i].category == Categories[i] && !d.lines[i].animated
    ensures forall i | 0 <= i < |d.lines| :: d.lines[i].answer == AnswerOf(catalog[TargetIndex(catalog, gameId)], i)
    ensures var info := catalog[TargetIndex(catalog, gameId)];
            if |info.images| == 0 then d.image == "" else d.image in info.images
  {
    GetPlayerDisplay(catalog, gameId, MAX_HINT).GetOr(PlayerDisplay("", [], ""))
  }

  /** `resolve_game`: a lost game, revealing the player with every line. */
  function ResolveGame(catalog: seq<PlayerInfo>, gameId: U32): (r: GameResultDisplay)
    requires |catalog| > 0
    ensures !r.success && r.time == ""
    ensures r.player.name == GetAnswer(catalog, gameId) && |r.player.lines| == |Categories|
    ensures r.player == FullDisplay(catalog, gameId)
  {
    GameResultDisplay(false, "", FullDisplay(catalog, gameId))
  }

  /** What the category endpoint renders. */
  datatype CategoryView =
    | PlayArea(lines: seq<Line>, showImage: bool, imgSrc: string)
    | Resolved(result: GameResultDisplay)

  /**
   * `get_category`: the play area for hints up to the last, with the picture
   * shown exactly at the last hint; any later hint resolves the game as lost.
   */
  function GetCategory(catalog: seq<PlayerInfo>, gameId: U32, hintId: U32): (v: CategoryView)
    requires |catalog| > 0
    ensures v.PlayArea? <==> hintId <= MAX_HINT
    ensures v.PlayArea? ==> (v.showImage <==> hintId == MAX_HINT)
    ensures v.PlayArea? ==> v.lines == GetPlayerDisplay(catalog, gameId, hintId).value.lines
    ensures v.PlayArea? ==> v.imgSrc == GetPlayerDisplay(catalog, gameId, hintId).value.image
    ensures v.Resolved? ==> v.result == ResolveGame(catalog, gameId)
  {
    var playerDisplay := GetPlayerDisplay(catalog, gameId, hintId);
    if playerDisplay.None? then Resolved(ResolveGame(catalog, gameId))
    else
      var showImage := hintId == MAX_HINT;
      PlayArea(playerDisplay.value.lines, showImage, playerDisplay.value.image)
  }

  /** `skip`: giving up resolves the game as lost. */
  function Skip(catalog: seq<PlayerInfo>, gameId: U32): (r: GameResultDisplay)
    requires |catalog| > 0
    ensures !r.success && r.time == "" && r.player == FullDisplay(catalog, gameId)
  {
    ResolveGame(catalog, gameId)
  }

  /** The hints a client counter produces, 1 to 7, show a growing play area; the eighth request resolves the game. */
  lemma HintProgression(catalog: seq<PlayerInfo>, gameId: U32, h: U32)
    requires |catalog| > 0 && 1 <= h
    ensures h <= 6 ==> var v := GetCategory(catalog, gameId, h); v.PlayArea? && |v.lines| == h && !v.showImage
    ensures h == MAX_HINT ==> var v := GetCategory(catalog, gameId, h); v.PlayArea? && |v.lines| == 6 && v.showImage
    ensures h > MAX_HINT ==> var v := GetCategory(catalog, gameId, h); v.Resolved? && !v.result.success
  {
  }

  // ---------------------------------------------------------------------------
  // Name prediction

  /** Some space-separated token of a name starts with the (lower-cased) query. */
  predicate SomePartStartsWith(parts: seq<string>, query: string)
    decreases |parts|
  {
    |parts| > 0 && (StartsWith(Lower(parts[0]), query) || SomePartStartsWith(parts[1..], query))
  }

  /** A player is predicted for `query` when its full name, or a token of it, starts with the query, ignoring case. */
  predicate Matches(name: string, query: string) {
    StartsWith(Lower(name), query) || SomePartStartsWith(Split(name, ' '), query)
  }

  /** The scan of `get_prediction`: the index of the first player in catalog order that matches. */
  function FirstMatch(catalog: seq<PlayerInfo>, query: string): (r: Option<nat>)
    ensures r.Some? ==> r.value < |catalog| && Matches(catalog[r.value].name, query)
    ensures r.Some? ==> forall j | 0 <= j < r.value :: !Matches(catalog[j].name, query)
    ensures r.None? ==> forall j | 0 <= j < |catalog| :: !Matches(catalog[j].name, query)
    decreases |catalog|
  {
    if |catalog| == 0 then None
    else if Matches(catalog[0].name, query) then Some(0)
    else match FirstMatch(catalog[1..], query)
      case None => None
      case Some(k) => Some(k + 1)
  }

  /** `get_prediction`: no prediction for queries under three characters, else the first matching name. */
  function Predict(catalog: seq<PlayerInfo>, query: string): (r: Option<string>)
    ensures |query| < 3 ==> r.None?
    ensures |query| >= 3 ==> (r.None? <==> forall j | 0 <= j < |catalog| :: !Matches(catalog[j].name, Lower(query)))
    ensures r.Some? ==> exists i | 0 <= i < |catalog| ::
              && catalog[i].name == r.value
              && Matches(catalog[i].name, Lower(query))
              && forall j | 0 <= j < i :: !Matches(catalog[j].name, Lower(query))
  {
    if |query| < 3 then None
    else
      var requested := Lower(query);
      match FirstMatch(catalog, requested)
      case None => None
      case Some(i) => Some(catalog[i].name)
  }

  /** A token matches exactly when it is one of the parts and starts with the query. */
  lemma {:induction false} SomePartIff(parts: seq<string>, query: string)
    ensures SomePartStartsWith(parts, query) <==> exists k | 0 <= k < |parts| :: StartsWith(Lower(parts[k]), query)
    decreases |parts|
  {
    if |parts| > 0 {
      SomePartIff(parts[1..], query);
      assert forall k | 1 <= k < |parts| :: parts[k] == parts[1..][k - 1];
      if exists k | 0 <= k < |parts| :: StartsWith(Lower(parts[k]), query) {
        var k :| 0 <= k < |parts| && StartsWith(Lower(parts[k]), query);
        if k > 0 {
          assert StartsWith(Lower(parts[1..][k - 1]), query);
        }
      }
    }
  }

  /** Prediction depends on the query only up to case. */
  lemma PredictIgnoresCase(catalog: seq<PlayerInfo>, q1: string, q2: string)
    requires EqualIgnoringCase(q1, q2)
    ensures Predict(catalog, q1) == Predict(catalog, q2)
  {
    LowerEqualIff(q1, q2);
  }

  /** A player whose name is typed out in full (three characters or more) is predicted, unless an earlier player matches too. */
  lemma PredictFullName(catalog: seq<PlayerInfo>, i: nat)
    requires i < |catalog| && |catalog[i].name| >= 3
    requires forall j | 0 <= j < i :: !Matches(catalog[j].name, Lower(catalog[i].name))
    ensures Predict(catalog, catalog[i].name) == Some(catalog[i].name)
  {
    var q := Lower(catalog[i].name);
    assert StartsWith(q, q);
    assert Matches(catalog[i].name, q);
  }

  /** A query that starts a player's surname matches the player ("carl" matches "Magnus Carlsen"). */
  lemma SurnameMatches(first: string, last: string, query: string)
    requires ' ' !in first && ' ' !in last && StartsWith(Lower(last), query)
    ensures Matches(first + " " + last, query)
  {
    var parts := [first, last];
    assert Join(parts, ' ') == first + " " + last by {
      assert parts[1..] == [last];
    }
    SplitJoin(parts, ' ');
    assert SomePartStartsWith(parts[1..], query);
  }

  /** The first player whose surname the query starts is predicted, whatever the case of the query. */
  lemma PredictBySurname(catalog: seq<PlayerInfo>, i: nat, first: string, last: string, query: string)
    requires i < |catalog| && catalog[i].name == first + " " + last && ' ' !in first && ' ' !in last
    requires |query| >= 3 && StartsWith(Lower(last), Lower(query))
    requires forall j | 0 <= j < i :: !Matches(catalog[j].name, Lower(query))
    ensures Predict(catalog, query) == Some(first + " " + last)
  {
    SurnameMatches(first, last, Lower(query));
  }

  // ---------------------------------------------------------------------------
  // Answering

  datatype AnswerOutcome =
    | Solved(result: GameResultDisplay)
    | ImATeapot  // the wrong-answer status, 418

  /** `submit_answer`: a guess equal to the answer up to case wins and reveals the player; anything else is a teapot. */
  function SubmitAnswer(catalog: seq<PlayerInfo>, gameId: U32, guess: string): (o: AnswerOutcome)
    requires |catalog| > 0
    ensures o.Solved? <==> EqualIgnoringCase(guess, GetAnswer(catalog, gameId))
    ensures o.Solved? ==> o.result == GameResultDisplay(true, "", FullDisplay(catalog, gameId))
  {
    LowerEqualIff(guess, GetAnswer(catalog, gameId));
    if Lower(guess) == Lower(GetAnswer(catalog, gameId)) then
      Solved(GameResultDisplay(true, "", FullDisplay(catalog, gameId)))
    else
      ImATeapot
  }

  /** Winning and giving up reveal the same player the same way; only the outcome differs. */
  lemma SolvedRevealsLikeSkip(catalog: seq<PlayerInfo>, gameId: U32, guess: string)
    requires |catalog| > 0 && SubmitAnswer(catalog, gameId, guess).Solved?
    ensures SubmitAnswer(catalog, gameId, guess).result.player == Skip(catalog, gameId).player
    ensures SubmitAnswer(catalog, gameId, guess).result.success != Skip(catalog, gameId).success
  {
  }

  /** The expected name, in any case, is accepted. */
  lemma AnswerAcceptsOwnName(catalog: seq<PlayerInfo>, gameId: U32)
    requires |catalog| > 0
    ensures SubmitAnswer(catalog, gameId, GetAnswer(catalog, gameId)).Solved?
    ensures SubmitAnswer(catalog, gameId, Lower(GetAnswer(catalog, gameId))).Solved?
  {
    var name := GetAnswer(catalog, gameId);
    LowerEqualIff(name, name);
    LowerIdempotent(name);
    LowerEqualIff(Lower(name), name);
  }
}
