/** The GamePlay engine: the board state it updates in place, the outcome
    check after a move, the epsilon-greedy action choice, the backward value
    update, and self-play training. The random draws of the source (starting
    player, exploration draw, random cell) are parameters. */
module TicTacToe {
  import opened Board
  import opened Values
  import opened Greedy

  datatype Option<T> = None | Some(value: T)

  /** The terminal rewards of an episode for the table of player '0' (the
      "true" table) and the table of player '1' (the "dummy" table). */
  datatype Rewards = Rewards(trueReward: real, dummyReward: real)

  /** The reward the table of player p receives. */
  function RewardOf(rw: Rewards, p: char): real {
    if p == '0' then rw.trueReward else rw.dummyReward
  }

  /** The case table at the end of a training episode: result 1 is a win by
      player, result 0 a draw in which player made the last move. */
  function TerminalRewards(result: int, player: char): (rw: Rewards)
    requires result == 0 || result == 1
    requires IsPlayer(player)
    ensures result == 1 ==> RewardOf(rw, player) == 1.0 && RewardOf(rw, Toggle(player)) == -2.0
    ensures result == 0 ==> RewardOf(rw, player) == 0.2 && RewardOf(rw, Toggle(player)) == 0.5
    ensures -2.0 <= rw.trueReward <= 1.0 && -2.0 <= rw.dummyReward <= 1.0
  {
    if result == 1 then
      if player == '0' then Rewards(1.0, -2.0) else Rewards(-2.0, 1.0)
    else
      if player == '0' then Rewards(0.2, 0.5) else Rewards(0.5, 0.2)
  }

  /** The value get_action reads for candidate k (0 for an unseen key). */
  function CandidateValue(table: map<string, real>, b: map<int, char>, cands: seq<int>, p: char, k: int): real
    requires IsBoard(b) && AreCells(cands) && 0 <= k < |cands|
  {
    Lookup(table, StateKey(CandidateBoard(b, cands, p, k)))
  }

  /** The values get_action reads, candidate by candidate from k on. */
  function CandidateValues(table: map<string, real>, b: map<int, char>, cands: seq<int>, p: char, k: nat): (vals: seq<real>)
    requires IsBoard(b) && AreCells(cands) && k <= |cands|
    ensures |vals| == |cands| - k
    decreases |cands| - k
  {
    if k == |cands| then [] else [CandidateValue(table, b, cands, p, k)] + CandidateValues(table, b, cands, p, k + 1)
  }

  /** Entry j of the values from k on is candidate k + j's value. */
  lemma {:induction false} CandidateValuesAt(table: map<string, real>, b: map<int, char>, cands: seq<int>, p: char, k: nat, j: nat)
    requires IsBoard(b) && AreCells(cands) && k + j < |cands|
    ensures CandidateValues(table, b, cands, p, k)[j] == CandidateValue(table, b, cands, p, k + j)
    decreases j
  {
    if j > 0 {
      CandidateValuesAt(table, b, cands, p, k + 1, j - 1);
    }
  }

  /** The cell the greedy branch of get_action returns, or None where the
      source is left without an action (no value beats the sentinel). */
  function GreedyCell(table: map<string, real>, b: map<int, char>, cands: seq<int>, p: char): Option<int>
    requires IsBoard(b) && AreCells(cands)
  {
    var st := Scan(CandidateValues(table, b, cands, p, 0), |cands|);
    if st.best >= 0 then Some(cands[st.best]) else None
  }

  /** The greedy branch yields a cell exactly when some candidate's value
      beats the sentinel, and then the cell of the first candidate of largest
      value (CandidateValuesAt says which value is whose). */
  lemma GreedyCellSpec(table: map<string, real>, b: map<int, char>, cands: seq<int>, p: char)
    requires IsBoard(b) && AreCells(cands)
    ensures var vals := CandidateValues(table, b, cands, p, 0);
            GreedyCell(table, b, cands, p).Some? <==> exists k :: 0 <= k < |vals| && vals[k] > Sentinel
    ensures var vals := CandidateValues(table, b, cands, p, 0);
            GreedyCell(table, b, cands, p).Some? ==>
              exists k :: IsFirstMax(vals, k) && GreedyCell(table, b, cands, p).value == cands[k]
  {
    ScanFindsFirstMax(CandidateValues(table, b, cands, p, 0));
  }

  /** With every value in [-2, 1], as training keeps them, the greedy branch
      always has a cell when there is a free one. */
  lemma GreedyCellInRange(table: map<string, real>, b: map<int, char>, cands: seq<int>, p: char)
    requires IsBoard(b) && AreCells(cands) && InRange(table) && cands != []
    ensures GreedyCell(table, b, cands, p).Some? && GreedyCell(table, b, cands, p).value in cands
  {
    LookupInRange(table, StateKey(CandidateBoard(b, cands, p, 0)));
    CandidateValuesAt(table, b, cands, p, 0, 0);
    GreedyCellSpec(table, b, cands, p);
  }

  /** The board get_action has built at iteration i: with p's mark on
      candidate i the value it reads is candidate i's value; writing the cell
      back to blank restores one more candidate. */
  lemma ScanLookAt(table: map<string, real>, b0: map<int, char>, cands: seq<int>, p: char, i: int, b: map<int, char>, v: real)
    requires IsBoard(b0) && AreCells(cands) && 0 <= i < |cands|
    requires b == RestoreBlank(b0, cands[..i])[cands[i] := p]
    requires v == Lookup(table, StateKey(b))
    ensures v == CandidateValues(table, b0, cands, p, 0)[i]
    ensures b[cands[i] := Blank] == RestoreBlank(b0, cands[..i + 1])
  {
    assert b == CandidateBoard(b0, cands, p, i);
    CandidateValuesAt(table, b0, cands, p, 0, i);
    RestoreBlankPrefix(b0, cands, i, p);
  }

  /** Between the turns of an episode the free list is exactly the ascending
      list of blank cells. */
  predicate FreeListMatches(b: map<int, char>, avlbl: seq<int>)
    requires IsBoard(b)
  {
    avlbl == BlankCells(StateKey(b))
  }

  /** With a matching free list, candidate k is the current board with p's
      mark on its cell, and its value that of the next state. */
  lemma CandidateIsNextState(table: map<string, real>, b: map<int, char>, avlbl: seq<int>, p: char, k: int)
    requires IsBoard(b) && FreeListMatches(b, avlbl) && 0 <= k < |avlbl|
    ensures AreCells(avlbl)
    ensures CandidateValue(table, b, avlbl, p, k) == Lookup(table, StateKey(b[avlbl[k] := p]))
  {
    FreeListBlank(b, avlbl);
    CandidateOnBlankCells(b, avlbl, p, k);
  }

  /** The table player p reads: the true table for '0', the dummy one for '1'. */
  function TableOf(p: char, trueTable: map<string, real>, dummyTable: map<string, real>): map<string, real> {
    if p == '0' then trueTable else dummyTable
  }

  /** A matching free list holds cells, all of them blank, so writing them
      back to blank (as get_action does) changes nothing. */
  lemma FreeListBlank(b: map<int, char>, avlbl: seq<int>)
    requires IsBoard(b) && FreeListMatches(b, avlbl)
    ensures AreCells(avlbl) && forall j :: 0 <= j < |avlbl| ==> b[avlbl[j]] == Blank
    ensures RestoreBlank(b, avlbl) == b
  {
    forall j | 0 <= j < |avlbl| ensures 0 <= avlbl[j] < 9 && b[avlbl[j]] == Blank {
      assert avlbl[j] in avlbl;
      assert StateKey(b)[avlbl[j]] == Blank;
    }
    RestoreBlankNoop(b, avlbl);
  }

  /** A turn between two turns of an episode: p marks a free cell a of a
      board nobody has won. The outcome check then sees exactly p's lines,
      p's opponent still holds none, and the free list without a is the
      blank-cell list of the new board. */
  lemma MoveOnFreeCell(b: map<int, char>, avlbl: seq<int>, p: char, a: int)
    requires IsBoard(b) && IsPlayer(p) && FreeListMatches(b, avlbl) && NoWinner(b)
    requires a in avlbl
    ensures 0 <= a < 9 && b[a] == Blank
    ensures IsBoard(b[a := p])
    ensures WinCheck(b[a := p], p, a) <==> HasLine(b[a := p], p)
    ensures !HasLine(b[a := p], Toggle(p))
    ensures !WinCheck(b[a := p], p, a) ==> NoWinner(b[a := p])
    ensures FreeListMatches(b[a := p], RemoveFirst(avlbl, a))
  {
    WinCheckAfterMove(b, p, a);
    OtherPlayerUnaffected(b, p, Toggle(p), a);
    StateKeyUpdate(b, a, p);
    BlankCellsAfterMark(StateKey(b), a, p);
  }

  /** A board over cells 0..8, a player symbol to move, and free-list entries
      that are cells. */
  predicate WellFormed(b: map<int, char>, avlbl: seq<int>, p: char) {
    && IsBoard(b)
    && IsPlayer(p)
    && AreCells(avlbl)
  }

  /** The state reset_board builds is well formed, between turns, and
      without a line. */
  lemma ResetState(start: char)
    requires IsPlayer(start)
    ensures var b := map pos | pos in AllCells() :: Blank;
            && b == EmptyBoard()
            && WellFormed(b, AllCells(), start)
            && FreeListMatches(b, AllCells())
            && NoWinner(b)
  {
    EmptyBoardFromCells();
    EmptyBoardFree();
  }

  /** Between turns, nine free cells mean nobody has won. */
  lemma FreeNineCells(b: map<int, char>, avlbl: seq<int>)
    requires IsBoard(b) && FreeListMatches(b, avlbl) && |avlbl| == 9
    ensures NoWinner(b)
  {
    FullFreeList(b);
  }

  /** The positions of the blank symbols of a key are cells. */
  lemma BlankCellsAreCells(cells: seq<char>)
    requires |cells| == 9
    ensures AreCells(BlankCells(cells))
  {
    var s := BlankCells(cells);
    forall k | 0 <= k < |s| ensures 0 <= s[k] < 9 {
      assert s[k] in s;
    }
  }

  /** The value of the state player p reaches by marking candidate k (0 for
      an unseen key), candidate by candidate. */
  function NextValues(table: map<string, real>, b: map<int, char>, cands: seq<int>, p: char): (vals: seq<real>)
    requires IsBoard(b) && AreCells(cands)
    ensures |vals| == |cands|
    ensures forall k :: 0 <= k < |cands| ==> vals[k] == Lookup(table, StateKey(b[cands[k] := p]))
  {
    seq(|cands|, k requires 0 <= k < |cands| => Lookup(table, StateKey(b[cands[k] := p])))
  }

  /** Between turns the values get_action scans are the values of the next
      states. */
  lemma ScannedAreNextValues(table: map<string, real>, b: map<int, char>, avlbl: seq<int>, p: char)
    requires IsBoard(b) && FreeListMatches(b, avlbl)
    ensures AreCells(avlbl)
    ensures CandidateValues(table, b, avlbl, p, 0) == NextValues(table, b, avlbl, p)
  {
    FreeListBlank(b, avlbl);
    var vals := CandidateValues(table, b, avlbl, p, 0);
    forall k | 0 <= k < |avlbl| ensures vals[k] == NextValues(table, b, avlbl, p)[k] {
      CandidateValuesAt(table, b, avlbl, p, 0, k);
      CandidateIsNextState(table, b, avlbl, p, k);
    }
  }

  /** get_action's greedy branch between turns: a cell exactly when some
      next state's value beats the sentinel, and then the first free cell
      whose next state has the largest value. */
  lemma GreedyCellNextState(table: map<string, real>, b: map<int, char>, avlbl: seq<int>, p: char)
    requires IsBoard(b) && FreeListMatches(b, avlbl)
    ensures AreCells(avlbl)
    ensures var vals := NextValues(table, b, avlbl, p);
            GreedyCell(table, b, avlbl, p).Some? <==> exists k :: 0 <= k < |vals| && vals[k] > Sentinel
    ensures GreedyCell(table, b, avlbl, p).Some? ==>
              exists k :: IsFirstMax(NextValues(table, b, avlbl, p), k) && GreedyCell(table, b, avlbl, p).value == avlbl[k]
  {
    ScannedAreNextValues(table, b, avlbl, p);
    GreedyCellSpec(table, b, avlbl, p);
  }

  // ---------------------------------------------------------------------------
  // Replaying an episode

  /** The player making move t of an episode first opened. */
  function MoverAt(first: char, t: nat): (p: char)
    ensures IsPlayer(first) ==> IsPlayer(p)
  {
    if t % 2 == 0 then first else Toggle(first)
  }

  /** The turn passes to the other player after every move. */
  lemma MoverAtNext(first: char, t: nat)
    requires IsPlayer(first)
    ensures MoverAt(first, t + 1) == Toggle(MoverAt(first, t))
  {
  }

  /** The board after the moves, marked in turn by first and its opponent. */
  function Played(b: map<int, char>, first: char, moves: seq<int>): (b': map<int, char>)
    requires IsBoard(b) && AreCells(moves)
    ensures IsBoard(b')
    decreases |moves|
  {
    if moves == [] then b
    else
      var n := |moves| - 1;
      StateKeyUpdate(Played(b, first, moves[..n]), moves[n], MoverAt(first, n));
      Played(b, first, moves[..n])[moves[n] := MoverAt(first, n)]
  }

  /** The keys of the states after each move, whoever made it: what an
      episode appends to states_visited. */
  function Trace(b: map<int, char>, first: char, moves: seq<int>): (trace: seq<string>)
    requires IsBoard(b) && AreCells(moves)
    ensures |trace| == |moves|
    decreases |moves|
  {
    if moves == [] then []
    else Trace(b, first, moves[..|moves| - 1]) + [StateKey(Played(b, first, moves))]
  }

  /** Move t of the replay is one train makes: on a board nobody has won,
      a free cell, the picked one when the draw is below epsilon and
      otherwise the mover's greedy cell read from its own table. */
  ghost predicate LegalTurn(trueTable: map<string, real>, dummyTable: map<string, real>, eps: real,
                            draws: seq<real>, picks: seq<nat>, b: map<int, char>, first: char, moves: seq<int>, t: nat)
    requires IsBoard(b) && AreCells(moves) && t < |moves| && |moves| <= |draws| && |moves| <= |picks|
  {
    var before := Played(b, first, moves[..t]);
    var free := BlankCells(StateKey(before));
    var p := MoverAt(first, t);
    BlankCellsAreCells(StateKey(before));
    && NoWinner(before)
    && moves[t] in free
    && (draws[t] < eps ==> picks[t] < |free| && moves[t] == free[picks[t]])
    && (!(draws[t] < eps) ==> GreedyCell(TableOf(p, trueTable, dummyTable), before, free, p) == Some(moves[t]))
  }

  /** Every move of the replay is a legal turn (the last one checked first). */
  ghost predicate AllLegal(trueTable: map<string, real>, dummyTable: map<string, real>, eps: real,
                           draws: seq<real>, picks: seq<nat>, b0: map<int, char>, first: char, moves: seq<int>)
    requires IsBoard(b0) && AreCells(moves) && |moves| <= |draws| && |moves| <= |picks|
    decreases |moves|
  {
    moves == [] ||
    (&& AllLegal(trueTable, dummyTable, eps, draws, picks, b0, first, moves[..|moves| - 1])
     && LegalTurn(trueTable, dummyTable, eps, draws, picks, b0, first, moves, |moves| - 1))
  }

  /** AllLegal says what it promises: each move in turn is legal. */
  lemma {:induction false} AllLegalAt(trueTable: map<string, real>, dummyTable: map<string, real>, eps: real,
                                      draws: seq<real>, picks: seq<nat>, b0: map<int, char>, first: char, moves: seq<int>)
    requires IsBoard(b0) && AreCells(moves) && |moves| <= |draws| && |moves| <= |picks|
    requires AllLegal(trueTable, dummyTable, eps, draws, picks, b0, first, moves)
    ensures forall t: nat :: t < |moves| ==> LegalTurn(trueTable, dummyTable, eps, draws, picks, b0, first, moves, t)
    decreases |moves|
  {
    if moves != [] {
      var n := |moves| - 1;
      var init := moves[..n];
      AllLegalAt(trueTable, dummyTable, eps, draws, picks, b0, first, init);
      assert init + [moves[n]] == moves;
      forall t: nat | t < n ensures LegalTurn(trueTable, dummyTable, eps, draws, picks, b0, first, moves, t) {
        LegalTurnKept(trueTable, dummyTable, eps, draws, picks, b0, first, init, moves[n], t);
      }
    }
  }

  /** Entry t of the trace is the key of the board after the first t + 1
      moves. */
  lemma {:induction false} TraceAt(b: map<int, char>, first: char, moves: seq<int>, t: nat)
    requires IsBoard(b) && AreCells(moves) && t < |moves|
    ensures AreCells(moves[..t + 1])
    ensures Trace(b, first, moves)[t] == StateKey(Played(b, first, moves[..t + 1]))
    decreases |moves|
  {
    var n := |moves| - 1;
    if t < n {
      TraceAt(b, first, moves[..n], t);
      assert moves[..n][..t + 1] == moves[..t + 1];
    } else {
      assert moves[..t + 1] == moves;
    }
  }

  /** Move t marks its cell, blank until then, with the symbol of the
      player whose turn it is. */
  lemma PlayedStep(trueTable: map<string, real>, dummyTable: map<string, real>, eps: real,
                   draws: seq<real>, picks: seq<nat>, b0: map<int, char>, first: char, moves: seq<int>, t: nat)
    requires IsBoard(b0) && AreCells(moves) && t < |moves| && |moves| <= |draws| && |moves| <= |picks|
    requires LegalTurn(trueTable, dummyTable, eps, draws, picks, b0, first, moves, t)
    ensures AreCells(moves[..t]) && AreCells(moves[..t + 1]) && 0 <= moves[t] < 9
    ensures Played(b0, first, moves[..t])[moves[t]] == Blank
    ensures Played(b0, first, moves[..t + 1]) == Played(b0, first, moves[..t])[moves[t] := MoverAt(first, t)]
  {
    assert moves[..t + 1][..t] == moves[..t];
    assert moves[..t + 1][t] == moves[t];
  }

  /** Blanking the last move's cell on a replayed board gives the board
      before that move. */
  lemma LastMoveUndone(trueTable: map<string, real>, dummyTable: map<string, real>, eps: real,
                       draws: seq<real>, picks: seq<nat>, b0: map<int, char>, first: char,
                       moves: seq<int>, b: map<int, char>, trace: seq<string>)
    requires IsBoard(b0) && 1 <= |moves|
    requires Replays(trueTable, dummyTable, eps, draws, picks, b0, first, moves, b, trace)
    ensures AreCells(moves[..|moves| - 1]) && 0 <= moves[|moves| - 1] < 9
    ensures b[moves[|moves| - 1] := Blank] == Played(b0, first, moves[..|moves| - 1])
  {
    var t := |moves| - 1;
    AllLegalAt(trueTable, dummyTable, eps, draws, picks, b0, first, moves);
    PlayedStep(trueTable, dummyTable, eps, draws, picks, b0, first, moves, t);
    assert moves[..t + 1] == moves;
    UndoMark(Played(b0, first, moves[..t]), moves[t], MoverAt(first, t));
  }

  /** The moves, the board and the trace of an episode played from b0 with
      first to move: every move a legal turn, the board the one they build,
      and the trace their states in order. */
  ghost predicate Replays(trueTable: map<string, real>, dummyTable: map<string, real>, eps: real,
                          draws: seq<real>, picks: seq<nat>, b0: map<int, char>, first: char,
                          moves: seq<int>, b: map<int, char>, trace: seq<string>)
    requires IsBoard(b0)
  {
    && AreCells(moves) && |moves| <= |draws| && |moves| <= |picks|
    && b == Played(b0, first, moves)
    && trace == Trace(b0, first, moves)
    && AllLegal(trueTable, dummyTable, eps, draws, picks, b0, first, moves)
  }

  /** A legal turn extends a replay by one move, its board by the mover's
      mark and its trace by the new state's key. */
  lemma ReplaysExtend(trueTable: map<string, real>, dummyTable: map<string, real>, eps: real,
                      draws: seq<real>, picks: seq<nat>, b0: map<int, char>, first: char,
                      moves: seq<int>, b: map<int, char>, trace: seq<string>, a: int)
    requires IsBoard(b0) && IsBoard(b) && 0 <= a < 9
    requires Replays(trueTable, dummyTable, eps, draws, picks, b0, first, moves, b, trace)
    requires |moves| < |draws| && |moves| < |picks|
    requires LegalTurn(trueTable, dummyTable, eps, draws, picks, b0, first, moves + [a], |moves|)
    ensures var b' := b[a := MoverAt(first, |moves|)];
            IsBoard(b') && Replays(trueTable, dummyTable, eps, draws, picks, b0, first, moves + [a], b', trace + [StateKey(b')])
  {
    var moves' := moves + [a];
    assert moves'[..|moves|] == moves;
    assert AreCells(moves');
    var b' := b[a := MoverAt(first, |moves|)];
    assert Played(b0, first, moves') == b';
    assert Trace(b0, first, moves') == trace + [StateKey(b')];
    assert AllLegal(trueTable, dummyTable, eps, draws, picks, b0, first, moves');
  }

  /** Appending a move leaves the earlier turns as legal as they were. */
  lemma LegalTurnKept(trueTable: map<string, real>, dummyTable: map<string, real>, eps: real,
                      draws: seq<real>, picks: seq<nat>, b0: map<int, char>, first: char,
                      moves: seq<int>, a: int, t: nat)
    requires IsBoard(b0) && AreCells(moves) && AreCells(moves + [a]) && t < |moves| && |moves| < |draws| && |moves| < |picks|
    requires LegalTurn(trueTable, dummyTable, eps, draws, picks, b0, first, moves, t)
    ensures LegalTurn(trueTable, dummyTable, eps, draws, picks, b0, first, moves + [a], t)
  {
    assert (moves + [a])[..t] == moves[..t];
  }

  /** A move train makes from the state between turns is a legal turn at the
      end of the replay that led there. */
  lemma LegalTurnNew(trueTable: map<string, real>, dummyTable: map<string, real>, eps: real,
                     draws: seq<real>, picks: seq<nat>, b0: map<int, char>, first: char,
                     moves: seq<int>, b: map<int, char>, avlbl: seq<int>, a: int)
    requires IsBoard(b0) && AreCells(moves)
    requires b == Played(b0, first, moves)
    requires FreeListMatches(b, avlbl) && AreCells(avlbl) && NoWinner(b) && a in avlbl
    requires |moves| < |draws| && |moves| < |picks|
    requires draws[|moves|] < eps ==> picks[|moves|] < |avlbl| && a == avlbl[picks[|moves|]]
    requires !(draws[|moves|] < eps) ==>
               var p := MoverAt(first, |moves|);
               Some(a) == GreedyCell(TableOf(p, trueTable, dummyTable), b, avlbl, p)
    ensures 0 <= a < 9 && AreCells(moves + [a])
    ensures LegalTurn(trueTable, dummyTable, eps, draws, picks, b0, first, moves + [a], |moves|)
  {
    FreeListBlank(b, avlbl);
    assert (moves + [a])[..|moves|] == moves;
  }

  /** The turn loop of an episode after the moves played so far, on plain
      values: the board b and the trace are those of replaying the moves
      from b0, at most n of them; while the game runs the free list matches
      the board, nobody has won and p is the next mover; once it stopped, p
      made the last move and either holds a line and the other player none,
      with the free list left as it was before that move (result 1), or
      nobody has won and the board is full after n moves
      (result 0). */
  ghost predicate InPlay(trueTable: map<string, real>, dummyTable: map<string, real>, eps: real,
                         draws: seq<real>, picks: seq<nat>, b0: map<int, char>, first: char, n: nat,
                         moves: seq<int>, b: map<int, char>, avlbl: seq<int>, p: char, trace: seq<string>,
                         running: bool, result: int)
    requires IsBoard(b0)
  {
    && Replays(trueTable, dummyTable, eps, draws, picks, b0, first, moves, b, trace)
    && |moves| <= n <= 9
    && (running ==>
          && FreeListMatches(b, avlbl) && NoWinner(b) && avlbl != []
          && |avlbl| + |moves| == n && p == MoverAt(first, |moves|))
    && (!running ==>
          && 1 <= |moves| && p == MoverAt(first, |moves| - 1)
          && trace[|trace| - 1] == StateKey(b)
          && (result == 0 || result == 1)
          && (result == 1 ==> HasLine(b, p) && !HasLine(b, Toggle(p)))
          && (result == 1 ==> avlbl == BlankCells(StateKey(b[moves[|moves| - 1] := Blank])))
          && (result == 0 ==> NoWinner(b) && avlbl == [] && FreeListMatches(b, avlbl) && |moves| == n))
  }

  /** Before the first turn: no moves, the starting board and an empty
      trace, with the game running and the first player to move. */
  lemma InPlayStart(trueTable: map<string, real>, dummyTable: map<string, real>, eps: real,
                    draws: seq<real>, picks: seq<nat>, b0: map<int, char>, first: char, avlbl: seq<int>)
    requires IsBoard(b0) && FreeListMatches(b0, avlbl) && NoWinner(b0) && avlbl != []
    ensures InPlay(trueTable, dummyTable, eps, draws, picks, b0, first, |avlbl|, [], b0, avlbl, first, [], true, -1)
  {
    assert |StateKey(b0)| == 9;
  }

  /** Blanking a cell just marked gives back the board before the mark. */
  lemma UndoMark(b: map<int, char>, a: int, p: char)
    requires IsBoard(b) && 0 <= a < 9 && b[a] == Blank
    ensures b[a := p][a := Blank] == b
  {
  }

  /** One turn of the loop in value terms: from a running state, the move a
      (the picked free cell on a low draw, the greedy cell otherwise) played
      by p, with the outcome check_winner reports, gives the state after
      moves + [a]; the loop goes on exactly when the result is -1. */
  lemma TurnAdvances(trueTable: map<string, real>, dummyTable: map<string, real>, eps: real,
                     draws: seq<real>, picks: seq<nat>, b0: map<int, char>, first: char, n: nat,
                     moves: seq<int>, b: map<int, char>, avlbl: seq<int>, p: char, trace: seq<string>,
                     a: int, result: int, b': map<int, char>, avlbl': seq<int>, p': char, trace': seq<string>)
    requires IsBoard(b0) && IsBoard(b) && IsPlayer(first) && IsPlayer(p) && AreCells(avlbl)
    requires InPlay(trueTable, dummyTable, eps, draws, picks, b0, first, n, moves, b, avlbl, p, trace, true, -1)
    requires |moves| < |draws| && |moves| < |picks|
    requires a in avlbl && b[a] == Blank
    requires draws[|moves|] < eps ==> picks[|moves|] < |avlbl| && a == avlbl[picks[|moves|]]
    requires !(draws[|moves|] < eps) ==> Some(a) == GreedyCell(TableOf(p, trueTable, dummyTable), b, avlbl, p)
    requires b' == b[a := p] && trace' == trace + [StateKey(b')]
    requires result == 1 || result == 0 || result == -1
    requires result == 1 <==> HasLine(b', p)
    requires !HasLine(b', Toggle(p))
    requires result == 1 ==> avlbl' == avlbl && p' == p
    requires result != 1 ==> IsBoard(b') && FreeListMatches(b', avlbl') && NoWinner(b') && |avlbl'| == |avlbl| - 1
    requires result == 0 <==> result != 1 && avlbl' == []
    requires result == 0 ==> p' == p
    requires result == -1 ==> p' == Toggle(p)
    ensures IsBoard(b')
    ensures InPlay(trueTable, dummyTable, eps, draws, picks, b0, first, n, moves + [a], b', avlbl', p', trace',
                   result == -1, result)
  {
    assert Replays(trueTable, dummyTable, eps, draws, picks, b0, first, moves + [a], b', trace') by {
      LegalTurnNew(trueTable, dummyTable, eps, draws, picks, b0, first, moves, b, avlbl, a);
      ReplaysExtend(trueTable, dummyTable, eps, draws, picks, b0, first, moves, b, trace, a);
    }
    MoverAtNext(first, |moves|);
    assert |trace'| == |moves| + 1 && trace'[|trace'| - 1] == StateKey(b');
    if result == -1 {
      assert p' == MoverAt(first, |moves + [a]|);
    } else {
      assert p' == MoverAt(first, |moves + [a]| - 1);
      if result == 1 {
        assert (moves + [a])[|moves|] == a;
        UndoMark(b, a, p);
      }
    }
  }

  class GamePlay {
    /** The board dict, cell -> ' ', '0' or '1'. */
    var board: map<int, char>
    /** avlbl_spaces, the free cells in list order. */
    var avlbl: seq<int>
    /** The player to move, '0' or '1'. */
    var currPlayer: char
    /** The exploration rate compared against the random draw. */
    var epsilon: real
    /** The keys of the states reached after each move of the episode. */
    var statesVisited: seq<string>
    /** The learning rate and the discount factor set by train. */
    var lr: real
    var gamma: real

    /** The shape every operation keeps: a board over cells 0..8, a player
        symbol to move, and free-list entries that are cells. */
    ghost predicate Valid()
      reads this
    {
      WellFormed(board, avlbl, currPlayer)
    }

    /** The state between two turns of an episode. */
    ghost predicate Consistent()
      reads this
    {
      Valid() && FreeListMatches(board, avlbl)
    }

    /** __init__ resets the board; start is the player random.choice picks. */
    constructor (start: char)
      requires IsPlayer(start)
      ensures Consistent() && NoWinner(board)
      ensures board == EmptyBoard() && avlbl == AllCells() && currPlayer == start && epsilon == -1.0
    {
      epsilon := -1.0;
      avlbl := AllCells();
      currPlayer := start;
      board := map pos | pos in AllCells() :: Blank;
      new;
      ResetState(start);
    }

    /** reset_board: every cell blank, every cell free in ascending order,
        epsilon -1 and start (the random choice) to move. */
    method ResetBoard(start: char)
      requires IsPlayer(start)
      modifies this`epsilon, this`avlbl, this`currPlayer, this`board
      ensures Consistent() && NoWinner(board)
      ensures board == EmptyBoard() && avlbl == AllCells() && currPlayer == start && epsilon == -1.0
    {
      epsilon := -1.0;
      avlbl := AllCells();
      currPlayer := start;
      board := map pos | pos in avlbl :: Blank;
      ResetState(start);
    }

    /** curr_state: the key of the current board. */
    function CurrState(): (key: string)
      reads this
      requires Valid()
      ensures |key| == 9 && forall i :: 0 <= i < 9 ==> key[i] == board[i]
    {
      StateKey(board)
    }

    /** check_winner: reports a win (1) when the mover holds the row or the
        column of the last move or a diagonal, touching nothing; otherwise
        removes the move from the free list and reports a draw (0) when the
        list is empty, or passes the turn and reports -1. */
    method CheckWinner(lastMove: int) returns (result: int)
      requires Valid() && 0 <= lastMove < 9
      requires WinCheck(board, currPlayer, lastMove) || lastMove in avlbl
      modifies this`avlbl, this`currPlayer
      ensures Valid()
      ensures result == 1 || result == 0 || result == -1
      ensures result == 1 <==> WinCheck(board, old(currPlayer), lastMove)
      ensures result == 1 ==> avlbl == old(avlbl) && currPlayer == old(currPlayer)
      ensures result != 1 ==> lastMove in old(avlbl) && avlbl == RemoveFirst(old(avlbl), lastMove)
      ensures result == 0 <==> result != 1 && avlbl == []
      ensures result == 0 ==> currPlayer == old(currPlayer)
      ensures result == -1 ==> currPlayer == Toggle(old(currPlayer))
    {
      var col := lastMove % 3;
      var row := lastMove - col;
      if board[row] == currPlayer && board[row + 1] == currPlayer && board[row + 2] == currPlayer { return 1; }
      if board[col] == currPlayer && board[col + 3] == currPlayer && board[col + 6] == currPlayer { return 1; }
      if board[0] == currPlayer && board[4] == currPlayer && board[8] == currPlayer { return 1; }
      if board[2] == currPlayer && board[4] == currPlayer && board[6] == currPlayer { return 1; }

      RemoveFirstCells(avlbl, lastMove);
      avlbl := RemoveFirst(avlbl, lastMove);
      if |avlbl| == 0 { return 0; }
      currPlayer := if currPlayer == '1' then '0' else '1';
      return -1;
    }

    /** get_action: with draw < epsilon the random cell avlbl[pick];
        otherwise, trying the mover's mark on each free cell in turn and
        writing it back to blank, the first cell whose state has the largest
        value (None when no value beats the sentinel, where the source has no
        action to return). Afterwards the free cells are blank and the rest
        of the board is as it was. */
    method GetAction(table: map<string, real>, draw: real, pick: nat) returns (action: Option<int>)
      requires Valid()
      requires draw < epsilon ==> pick < |avlbl|
      modifies this`board
      ensures Valid()
      ensures draw < epsilon ==> board == old(board) && action == Some(avlbl[pick])
      ensures !(draw < epsilon) ==>
                board == RestoreBlank(old(board), avlbl) && action == GreedyCell(table, old(board), avlbl, currPlayer)
    {
      if draw < epsilon {
        action := Some(avlbl[pick]);
      } else {
        ghost var b0 := board;
        ghost var vals := CandidateValues(table, b0, avlbl, currPlayer, 0);
        var maxVal := Sentinel;
        ghost var best := -1;
        action := None;
        var i := 0;
        while i < |avlbl|
          invariant 0 <= i <= |avlbl|
          invariant board == RestoreBlank(b0, avlbl[..i])
          invariant Scan(vals, i) == ScanState(best, maxVal)
          invariant action == if best >= 0 then Some(avlbl[best]) else None
        {
          var space := avlbl[i];
          board := board[space := currPlayer];
          var currVal := Lookup(table, CurrState());
          ScanLookAt(table, b0, avlbl, currPlayer, i, board, currVal);
          if currVal > maxVal {
            maxVal := currVal;
            action := Some(space);
            best := i;
          }
          board := board[space := Blank];
          i := i + 1;
        }
        assert avlbl[..i] == avlbl;
        assert IsBoard(board);
      }
    }

    /** update_states_values: the backward pass over the visited states, from
        the terminal reward, returning the updated table. Each visited state
        gets an entry and no other entry changes. */
    method UpdateStatesValues(rewards: real, statesValues: map<string, real>) returns (updated: map<string, real>)
      ensures updated == Propagate(statesValues, statesVisited, rewards, lr, gamma)
      ensures updated.Keys == statesValues.Keys + set s | s in statesVisited
      ensures forall k :: k in statesValues && k !in statesVisited ==> updated[k] == statesValues[k]
    {
      updated := statesValues;
      var signal := rewards;
      var i := |statesVisited|;
      assert statesVisited[..i] == statesVisited;
      while i > 0
        invariant 0 <= i <= |statesVisited|
        invariant Propagate(updated, statesVisited[..i], signal, lr, gamma)
                  == Propagate(statesValues, statesVisited, rewards, lr, gamma)
      {
        var state := statesVisited[i - 1];
        ghost var before := updated;
        var currVals: real;
        if state in updated {
          currVals := updated[state];
        } else {
          currVals := 0.0;
          updated := updated[state := currVals];
        }
        PropagateBackStep(before, updated, statesVisited, i, signal, lr, gamma);
        // The entry, read as currVals, moves by lr * (gamma * signal - currVals).
        updated := updated[state := TdStep(currVals, signal, lr, gamma)];
        signal := updated[state];
        i := i - 1;
      }
      assert statesVisited[..0] == [];
      PropagateKeys(statesValues, statesVisited, rewards, lr, gamma);
      PropagateFrame(statesValues, statesVisited, rewards, lr, gamma);
    }
  

    /** The choice at the start of a turn: player '0' asks get_action with
        the true table, player '1' with the dummy one. Between turns the free
        cells are blank, so the board comes back unchanged, and with values
        in [-2, 1] there is always a cell. */
    method ChooseAction(trueTable: map<string, real>, dummyTable: map<string, real>, draw: real, pick: nat)
      returns (action: int)
      requires Consistent() && avlbl != []
      requires InRange(trueTable) && InRange(dummyTable)
      requires draw < epsilon ==> pick < |avlbl|
      modifies this`board
      ensures board == old(board) && Consistent()
      ensures action in avlbl
      ensures draw < epsilon ==> action == avlbl[pick]
      ensures !(draw < epsilon) ==>
                Some(action) == GreedyCell(TableOf(currPlayer, trueTable, dummyTable), board, avlbl, currPlayer)
    {
      FreeListBlank(board, avlbl);
      var choice: Option<int>;
      if currPlayer == '0' {
        choice := GetAction(trueTable, draw, pick);
      } else {
        choice := GetAction(dummyTable, draw, pick);
      }
      if !(draw < epsilon) {
        GreedyCellInRange(TableOf(currPlayer, trueTable, dummyTable), board, avlbl, currPlayer);
      }
      action := choice.value;
    }

    /** One turn of a training episode: the mover picks a cell with its own
        table, marks it, records the state reached and checks the outcome.
        Between turns nobody has won and the free list is the list of blank
        cells; a turn that does not end in a win keeps that. */
    method Step(trueTable: map<string, real>, dummyTable: map<string, real>, draw: real, pick: nat)
      returns (action: int, result: int)
      requires Consistent() && NoWinner(board) && avlbl != []
      requires InRange(trueTable) && InRange(dummyTable)
      requires draw < epsilon ==> pick < |avlbl|
      modifies this`board, this`avlbl, this`currPlayer, this`statesVisited
      ensures Valid()
      ensures action in old(avlbl) && old(board)[action] == Blank
      ensures draw < epsilon ==> action == old(avlbl)[pick]
      ensures !(draw < epsilon) ==>
                Some(action) == GreedyCell(TableOf(old(currPlayer), trueTable, dummyTable),
                                           old(board), old(avlbl), old(currPlayer))
      ensures board == old(board)[action := old(currPlayer)]
      ensures statesVisited == old(statesVisited) + [StateKey(board)]
      ensures result == 1 || result == 0 || result == -1
      ensures result == 1 <==> HasLine(board, old(currPlayer))
      ensures !HasLine(board, Toggle(old(currPlayer)))
      ensures result == 1 ==> avlbl == old(avlbl) && currPlayer == old(currPlayer)
      ensures result != 1 ==> Consistent() && NoWinner(board) && |avlbl| == |old(avlbl)| - 1
      ensures result == 0 <==> result != 1 && avlbl == []
      ensures result == 0 ==> currPlayer == old(currPlayer)
      ensures result == -1 ==> currPlayer == Toggle(old(currPlayer))
    {
      action := ChooseAction(trueTable, dummyTable, draw, pick);
      MoveOnFreeCell(board, avlbl, currPlayer, action);
      board := board[action := currPlayer];
      statesVisited := statesVisited + [CurrState()];
      result := CheckWinner(action);
    }

    /** The state a finished episode leaves: the last visited state is the
        board, and either the player to move holds a line and the other
        none (result 1) or nobody does and no cell is blank (result 0). */
    ghost predicate Ended(result: int)
      reads this
    {
      && Valid()
      && 1 <= |statesVisited| <= 9
      && statesVisited[|statesVisited| - 1] == StateKey(board)
      && (result == 0 || result == 1)
      && (result == 1 ==> HasLine(board, currPlayer) && !HasLine(board, Toggle(currPlayer)))
      && (result == 0 ==> NoWinner(board) && BlankCells(StateKey(board)) == [])
    }

    /** The turn loop of a training episode (train's inner while loop): turns
        until one reports a win or a draw. Turn t reads draws[t] and
        picks[t]. The ghost moves are the cells played, in order: the final
        board and the whole trace are those of replaying them from the
        start, each a legal turn of the player whose turn it was. */
    method PlayTurns(trueTable: map<string, real>, dummyTable: map<string, real>, draws: seq<real>, picks: seq<nat>)
      returns (result: int, ghost moves: seq<int>)
      requires Consistent() && NoWinner(board) && avlbl != [] && statesVisited == []
      requires |avlbl| <= |draws| && |avlbl| <= |picks|
      requires forall t :: 0 <= t < |avlbl| && draws[t] < epsilon ==> picks[t] < |avlbl| - t
      requires InRange(trueTable) && InRange(dummyTable)
      modifies this`board, this`avlbl, this`currPlayer, this`statesVisited
      ensures Ended(result) && |statesVisited| <= |old(avlbl)|
      ensures Replays(trueTable, dummyTable, epsilon, draws, picks, old(board), old(currPlayer), moves, board, statesVisited)
      ensures 1 <= |moves| && currPlayer == MoverAt(old(currPlayer), |moves| - 1)
      ensures result == 0 ==> |moves| == |old(avlbl)| && avlbl == []
      ensures result == 1 ==> avlbl == BlankCells(StateKey(board[moves[|moves| - 1] := Blank]))
    {
      ghost var n := |avlbl|;
      ghost var b0 := board;
      ghost var first := currPlayer;
      moves := [];
      var running := true;
      result := -1;
      InPlayStart(trueTable, dummyTable, epsilon, draws, picks, b0, first, avlbl);
      while running
        invariant Valid()
        invariant InPlay(trueTable, dummyTable, epsilon, draws, picks, b0, first, n,
                         moves, board, avlbl, currPlayer, statesVisited, running, result)
        decreases |avlbl| + (if running then 1 else 0)
      {
        ghost var before, free, mover, trace := board, avlbl, currPlayer, statesVisited;
        var t := |statesVisited|;
        var action;
        action, result := Step(trueTable, dummyTable, draws[t], picks[t]);
        TurnAdvances(trueTable, dummyTable, epsilon, draws, picks, b0, first, n,
                     moves, before, free, mover, trace, action, result, board, avlbl, currPlayer, statesVisited);
        moves := moves + [action];
        running := result == -1;
      }
    }

    /** The end of a training episode: the terminal rewards of the outcome
        for the player who moved last, the backward pass of each table over
        the whole trace with its own reward (dummy table first), and the
        board reset for the next episode with nextStart to move. */
    method FinishEpisode(result: int, trueTable: map<string, real>, dummyTable: map<string, real>, nextStart: char)
      returns (trueOut: map<string, real>, dummyOut: map<string, real>)
      requires result == 0 || result == 1
      requires IsPlayer(currPlayer) && IsPlayer(nextStart)
      requires 0.0 <= lr <= 1.0 && 0.0 <= gamma <= 1.0
      requires InRange(trueTable) && InRange(dummyTable)
      modifies this`board, this`avlbl, this`currPlayer, this`epsilon
      ensures trueOut == Propagate(trueTable, statesVisited, TerminalRewards(result, old(currPlayer)).trueReward, lr, gamma)
      ensures dummyOut == Propagate(dummyTable, statesVisited, TerminalRewards(result, old(currPlayer)).dummyReward, lr, gamma)
      ensures InRange(trueOut) && InRange(dummyOut)
      ensures Consistent() && NoWinner(board)
      ensures board == EmptyBoard() && avlbl == AllCells() && currPlayer == nextStart && epsilon == -1.0
    {
      var rewards := TerminalRewards(result, currPlayer);
      dummyOut := UpdateStatesValues(rewards.dummyReward, dummyTable);
      trueOut := UpdateStatesValues(rewards.trueReward, trueTable);
      PropagateInRange(dummyTable, statesVisited, rewards.dummyReward, lr, gamma);
      PropagateInRange(trueTable, statesVisited, rewards.trueReward, lr, gamma);
      ResetBoard(nextStart);
    }

    /** The turns of one episode of train from a reset board: the episode's
        exploration rate set, an empty trace, and the turn loop run to a win
        or a draw (ttc.py:104-115). */
    method PlayGame(eps: real, draws: seq<real>, picks: seq<nat>,
                    trueTable: map<string, real>, dummyTable: map<string, real>)
      returns (result: int, ghost moves: seq<int>)
      requires Consistent() && |avlbl| == 9
      requires |draws| >= 9 && |picks| >= 9
      requires forall t :: 0 <= t < 9 && draws[t] < eps ==> picks[t] < 9 - t
      requires InRange(trueTable) && InRange(dummyTable)
      modifies this`board, this`avlbl, this`currPlayer, this`statesVisited, this`epsilon
      ensures epsilon == eps && Ended(result)
      ensures Replays(trueTable, dummyTable, eps, draws, picks, old(board), old(currPlayer), moves, board, statesVisited)
      ensures 1 <= |moves| && currPlayer == MoverAt(old(currPlayer), |moves| - 1)
      ensures result == 0 ==> |moves| == 9 && currPlayer == old(currPlayer) && avlbl == []
      ensures result == 1 ==> avlbl == BlankCells(StateKey(board[moves[|moves| - 1] := Blank]))
    {
      statesVisited := [];
      epsilon := eps;
      FreeNineCells(board, avlbl);
      result, moves := PlayTurns(trueTable, dummyTable, draws, picks);
    }

    /** One episode of train from a reset board: the turns until a win or a
        draw, the terminal rewards of the last mover's outcome, both tables
        updated over the whole trace (both players' states), and the board
        reset for the next episode. eps is this episode's exploration rate,
        draws and picks the random draws of its turns in order, and
        nextStart the random first player of the next episode. */
    method PlayEpisode(eps: real, draws: seq<real>, picks: seq<nat>, nextStart: char,
                       trueTable: map<string, real>, dummyTable: map<string, real>)
      returns (result: int, lastMover: char, trueOut: map<string, real>, dummyOut: map<string, real>,
               ghost finalBoard: map<int, char>, ghost moves: seq<int>)
      requires Consistent() && |avlbl| == 9
      requires IsPlayer(nextStart)
      requires |draws| >= 9 && |picks| >= 9
      requires forall t :: 0 <= t < 9 && draws[t] < eps ==> picks[t] < 9 - t
      requires 0.0 <= lr <= 1.0 && 0.0 <= gamma <= 1.0
      requires InRange(trueTable) && InRange(dummyTable)
      modifies this`board, this`avlbl, this`currPlayer, this`statesVisited, this`epsilon
      ensures result == 0 || result == 1
      ensures IsPlayer(lastMover) && IsBoard(finalBoard)
      ensures 1 <= |statesVisited| <= 9 && statesVisited[|statesVisited| - 1] == StateKey(finalBoard)
      ensures result == 1 ==> HasLine(finalBoard, lastMover) && !HasLine(finalBoard, Toggle(lastMover))
      ensures result == 0 ==> NoWinner(finalBoard) && BlankCells(StateKey(finalBoard)) == []
      ensures Replays(trueTable, dummyTable, eps, draws, picks, old(board), old(currPlayer), moves, finalBoard, statesVisited)
      ensures 1 <= |moves| && lastMover == MoverAt(old(currPlayer), |moves| - 1)
      ensures result == 0 ==> |moves| == 9 && lastMover == old(currPlayer)
      ensures trueOut == Propagate(trueTable, statesVisited, TerminalRewards(result, lastMover).trueReward, lr, gamma)
      ensures dummyOut == Propagate(dummyTable, statesVisited, TerminalRewards(result, lastMover).dummyReward, lr, gamma)
      ensures InRange(trueOut) && InRange(dummyOut)
      ensures Consistent() && NoWinner(board)
      ensures board == EmptyBoard() && avlbl == AllCells() && currPlayer == nextStart && epsilon == -1.0
    {
      result, moves := PlayGame(eps, draws, picks, trueTable, dummyTable);
      lastMover := currPlayer;
      finalBoard := board;
      trueOut, dummyOut := FinishEpisode(result, trueTable, dummyTable, nextStart);
    }
  }
}
