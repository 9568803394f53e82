/** One play session of the client: the board in play, the template it was
    copied from, the current selection, the words already cleared, the mode
    and whether the puzzle is being test-played by its author. The click and
    erase handlers, start and reset, the completion test and the decision to
    report a score are pure steps over this state. */
module Session {
  import opened Common
  import opened Chars
  import opened Board
  import opened Selection
  import opened Wildcards

  /** The built-in dictionaries of the two modes. */
  const CountryDict: seq<string> := ["アメリカ", "イギリス", "ドイツ", "フランス", "ニホン", "タイワン"]
  const CapitalDict: seq<string> := ["トウキョウ", "パリ", "ロンドン", "ベルリン", "ローマ"]

  function DictionaryFor(m: Mode): seq<string>
  {
    match m
    case Country => CountryDict
    case Capital => CapitalDict
  }

  datatype State = State(
    board: Grid,
    initial: Grid,
    selection: Path,
    usedWords: seq<string>,
    mode: Mode,
    creationPlay: bool)

  /** A cell the board lets the player click: shown, and not empty. */
  predicate Clickable(b: Grid, p: Coord)
    requires WellFormed(b)
  {
    FirstVisibleRow <= p.r < Rows && 0 <= p.c < Cols && b[p.r][p.c] != Blank
  }

  predicate DistinctWords(ws: seq<string>)
  {
    forall i, j :: 0 <= i < j < |ws| ==> ws[i] != ws[j]
  }

  /** What holds of every session from its start on: both grids are 8 x 5,
      the selection is a straight run of clickable cells, and the used words
      are distinct words of the mode's dictionary. */
  predicate Valid(s: State)
  {
    && WellFormed(s.board)
    && WellFormed(s.initial)
    && IsLine(s.selection)
    && (forall i :: 0 <= i < |s.selection| ==> Clickable(s.board, s.selection[i]))
    && DistinctWords(s.usedWords)
    && (forall i :: 0 <= i < |s.usedWords| ==> s.usedWords[i] in DictionaryFor(s.mode))
  }

  /** `startGame`: the board and the reset copy both start as the template,
      nothing is selected and no word is used. */
  function StartGame(template: Grid, mode: Mode, creationPlay: bool): (s: State)
    requires WellFormed(template)
    ensures Valid(s) && !EraseEnabled(s.selection)
    ensures s.board == template && s.initial == template
    ensures s.selection == [] && s.usedWords == []
    ensures s.mode == mode && s.creationPlay == creationPlay
  {
    State(template, template, [], [], mode, creationPlay)
  }

  /** The reset button: start again from the copy taken at the start. */
  function Reset(s: State): (s': State)
    requires WellFormed(s.initial)
    ensures Valid(s')
    ensures s'.board == s.initial && s'.initial == s.initial
    ensures s'.selection == [] && s'.usedWords == []
    ensures s'.mode == s.mode && s'.creationPlay == s.creationPlay
  {
    StartGame(s.initial, s.mode, s.creationPlay)
  }

  /** `handleCellClick` on a clickable cell. */
  function Click(s: State, p: Coord): (s': State)
    requires Valid(s) && Clickable(s.board, p)
    ensures Valid(s')
    ensures s' == s.(selection := Selection.Click(s.selection, p))
  {
    var sel' := Selection.Click(s.selection, p);
    ClickKeepsLine(s.selection, p);
    assert forall i :: 0 <= i < |sel'| ==> sel'[i] == p || sel'[i] in s.selection;
    s.(selection := sel')
  }

  /** The selected cells' values, in selection order. */
  function SelectedCells(b: Grid, sel: Path): (cells: seq<string>)
    requires WellFormed(b) && forall i :: 0 <= i < |sel| ==> InBoard(sel[i])
    ensures |cells| == |sel|
    ensures forall i :: 0 <= i < |sel| ==> InBoard(sel[i]) && cells[i] == b[sel[i].r][sel[i].c]
  {
    seq(|sel|, i requires 0 <= i < |sel| && InBoard(sel[i]) && WellFormed(b) => b[sel[i].r][sel[i].c])
  }

  datatype Outcome =
    | Ignored                    // fewer than two cells selected
    | InvalidWildcard            // a wildcard prompt was cancelled, blank or invalid
    | NotInDictionary(word: string)
    | AlreadyUsed(word: string)
    | Cleared(word: string, completed: bool)

  datatype EraseResult = EraseResult(outcome: Outcome, state: State)

  /** The word the handler would check: `None` when a wildcard prompt fails. */
  function Candidate(s: State, prompts: seq<Option<string>>): Option<string>
    requires WellFormed(s.board) && forall i :: 0 <= i < |s.selection| ==> InBoard(s.selection[i])
  {
    CandidateWord(SelectedCells(s.board, s.selection), prompts, Answer)
  }

  /** The erase button's handler. Every rejection returns before anything
      changes; a success empties exactly the selected cells, records the word
      once, applies gravity and empties the selection. */
  function Erase(s: State, prompts: seq<Option<string>>): (r: EraseResult)
    requires WellFormed(s.board) && forall i :: 0 <= i < |s.selection| ==> InBoard(s.selection[i])
    ensures |s.selection| < 2 ==> r == EraseResult(Ignored, s)
    ensures !r.outcome.Cleared? ==> r.state == s
    ensures var cells := SelectedCells(s.board, s.selection);
      |s.selection| >= 2 ==>
        (r.outcome == InvalidWildcard <==> !AllAnswered(cells, prompts, Answer))
    ensures var cells := SelectedCells(s.board, s.selection);
      |s.selection| >= 2 && AllAnswered(cells, prompts, Answer) ==>
        var w := Join(Substituted(cells, prompts, Answer));
        && (r.outcome.NotInDictionary? <==> w !in DictionaryFor(s.mode))
        && (r.outcome.AlreadyUsed? <==> w in DictionaryFor(s.mode) && w in s.usedWords)
        && (!r.outcome.InvalidWildcard? && !r.outcome.Ignored? ==> r.outcome.word == w)
    ensures r.outcome.Cleared? ==>
      && |s.selection| >= 2
      && r.outcome.word in DictionaryFor(s.mode)
      && r.outcome.word !in s.usedWords
      && r.state.board == Gravity(ClearCells(s.board, s.selection))
      && r.state.usedWords == s.usedWords + [r.outcome.word]
      && r.state.selection == []
      && r.state.initial == s.initial && r.state.mode == s.mode
      && r.state.creationPlay == s.creationPlay
      && (r.outcome.completed <==> IsComplete(r.state.board))
  {
    CandidateMeetsSpec(SelectedCells(s.board, s.selection), prompts, Answer);
    if |s.selection| < 2 then EraseResult(Ignored, s)
    else
      match Candidate(s, prompts)
      case None => EraseResult(InvalidWildcard, s)
      case Some(word) =>
        if word !in DictionaryFor(s.mode) then EraseResult(NotInDictionary(word), s)
        else if word in s.usedWords then EraseResult(AlreadyUsed(word), s)
        else
          var board' := Gravity(ClearCells(s.board, s.selection));
          var s' := s.(board := board', usedWords := s.usedWords + [word], selection := []);
          EraseResult(Cleared(word, IsComplete(board')), s')
  }

  /** Erasing keeps the session invariant, whatever the outcome. */
  lemma EraseKeepsValid(s: State, prompts: seq<Option<string>>)
    requires Valid(s)
    ensures Valid(Erase(s, prompts).state)
  {
    var r := Erase(s, prompts);
    if r.outcome.Cleared? {
      var w := r.outcome.word;
      AddWordKeepsValid(s, w, r.state.board);
      assert r.state == s.(board := r.state.board, usedWords := s.usedWords + [w], selection := []);
    }
  }

  /** Recording a fresh dictionary word on a new board, with nothing
      selected, keeps the session invariant. */
  lemma AddWordKeepsValid(s: State, w: string, b: Grid)
    requires Valid(s) && WellFormed(b)
    requires w in DictionaryFor(s.mode) && w !in s.usedWords
    ensures Valid(s.(board := b, usedWords := s.usedWords + [w], selection := []))
  {
    var ws := s.usedWords + [w];
    forall i, j | 0 <= i < j < |ws|
      ensures ws[i] != ws[j]
    {
      if j == |ws| - 1 {
        assert ws[i] in s.usedWords;
      }
    }
  }

  /** Clicks and erases never touch the reset copy, the mode or the author
      flag, so a reset always returns to the session's own start. */
  lemma ResetReturnsToStart(s: State, p: Coord, prompts: seq<Option<string>>)
    requires Valid(s) && Clickable(s.board, p)
    ensures Reset(Click(s, p)) == Reset(s)
    ensures Reset(Erase(s, prompts).state) == Reset(s)
  {
  }

  /** One player action on the main screen: a click on a cell, or a press
      of the erase button answered by a sequence of prompt replies. */
  datatype Move = ClickAt(p: Coord) | EraseWith(prompts: seq<Option<string>>)

  /** One action. Only shown, non-empty cells carry a click handler, so a
      click anywhere else does nothing. */
  function Step(s: State, m: Move): (s': State)
    requires Valid(s)
    ensures Valid(s')
    ensures Reset(s') == Reset(s)
  {
    match m
    case ClickAt(p) =>
      if Clickable(s.board, p) then Click(s, p) else s
    case EraseWith(prompts) =>
      EraseKeepsValid(s, prompts);
      Erase(s, prompts).state
  }

  /** A whole sequence of actions, in order. */
  function Play(s: State, moves: seq<Move>): (s': State)
    requires Valid(s)
    ensures Valid(s')
    ensures Reset(s') == Reset(s)
    decreases |moves|
  {
    if |moves| == 0 then s else Play(Step(s, moves[0]), moves[1..])
  }

  /** Reset forgets everything played since the start: after any sequence of
      clicks and erases, it returns to the start state of the same template,
      mode and author flag. */
  lemma ResetAfterPlay(template: Grid, mode: Mode, creationPlay: bool, moves: seq<Move>)
    requires WellFormed(template)
    ensures var start := StartGame(template, mode, creationPlay);
      Reset(Play(start, moves)) == start
  {
  }

  /** The erase control is enabled exactly when pressing it does more than
      return at once; the first click of a selection never enables it. */
  lemma EraseButtonMatchesHandler(s: State, p: Coord, prompts: seq<Option<string>>)
    requires WellFormed(s.board) && forall i :: 0 <= i < |s.selection| ==> InBoard(s.selection[i])
    ensures EraseEnabled(s.selection) <==> Erase(s, prompts).outcome != Ignored
    ensures !EraseEnabled(Selection.Click([], p))
  {
  }

  /** Once the board is empty no cell can be clicked and nothing is selected,
      so the erase handler cannot run again: the completion fires once. */
  lemma CompletedBoardIsInert(s: State, p: Coord, prompts: seq<Option<string>>)
    requires Valid(s) && IsComplete(s.board)
    ensures !Clickable(s.board, p)
    ensures s.selection == []
    ensures Erase(s, prompts) == EraseResult(Ignored, s)
  {
    CompleteIffAllBlank(s.board);
    if |s.selection| > 0 {
      FirstSelectedIsFull(s);
      assert false;
    }
  }

  lemma FirstSelectedIsFull(s: State)
    requires Valid(s) && |s.selection| > 0
    ensures InBoard(s.selection[0])
    ensures s.board[s.selection[0].r][s.selection[0].c] != Blank
  {
    assert Clickable(s.board, s.selection[0]);
  }

  /** The client's player id is usable for a score report: JavaScript's
      `!currentPlayerId` rejects a missing id and the number 0. */
  predicate HasPlayerId(playerId: Option<int>)
  {
    playerId.Some? && playerId.value != 0
  }

  /** After an erase, the mode whose clear count the client asks the server to
      raise, if any: only a completed board, outside the author's test play,
      with a player id. */
  function ScoreReport(s: State, outcome: Outcome, playerId: Option<int>): (m: Option<Mode>)
    ensures m.Some? ==> m.value == s.mode
    ensures m.Some? <==> outcome.Cleared? && outcome.completed && !s.creationPlay && HasPlayerId(playerId)
  {
    if outcome.Cleared? && outcome.completed && !s.creationPlay && HasPlayerId(playerId) then Some(s.mode)
    else None
  }

  /** A successful clear that empties the board of a non-author session with
      a player id triggers exactly one report, for the session's mode; the
      author's test play never reports. */
  lemma ReportOnlyOnCompletion(s: State, prompts: seq<Option<string>>, playerId: Option<int>)
    requires Valid(s)
    ensures var r := Erase(s, prompts);
      ScoreReport(s, r.outcome, playerId).Some? <==>
        r.outcome.Cleared? && IsComplete(r.state.board) && !s.creationPlay && HasPlayerId(playerId)
    ensures s.creationPlay ==> ScoreReport(s, Erase(s, prompts).outcome, playerId) == None
  {
  }
}
