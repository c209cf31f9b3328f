/** The 3x3 board of GamePlay as pure values: cells, the state key, the win
    lines, the check made after a move, and the list of free cells. */
module Board {

  /** The symbol of an empty cell. */
  const Blank: char := ' '

  /** The two player symbols. */
  predicate IsPlayer(c: char) {
    c == '0' || c == '1'
  }

  /** The board dict: its keys are exactly the cells 0..8. */
  predicate IsBoard(b: map<int, char>) {
    && (forall i :: 0 <= i < 9 ==> i in b)
    && (forall i :: i in b ==> 0 <= i < 9)
  }

  /** Every entry of s is a cell index. */
  predicate AreCells(s: seq<int>) {
    forall k :: 0 <= k < |s| ==> 0 <= s[k] < 9
  }

  /** The board built by reset_board: every cell blank. */
  function EmptyBoard(): (b: map<int, char>)
    ensures IsBoard(b)
    ensures forall i :: 0 <= i < 9 ==> b[i] == Blank
  {
    map[0 := Blank, 1 := Blank, 2 := Blank, 3 := Blank, 4 := Blank,
        5 := Blank, 6 := Blank, 7 := Blank, 8 := Blank]
  }

  /** The dict comprehension of reset_board over list(range(9)) is the blank board. */
  lemma EmptyBoardFromCells()
    ensures (map pos | pos in AllCells() :: Blank) == EmptyBoard()
  {
    var m := map pos | pos in AllCells() :: Blank;
    assert forall i :: 0 <= i < 9 ==> AllCells()[i] == i && i in m;
    assert m.Keys == EmptyBoard().Keys;
  }

  /** The blank board has every cell free, in ascending order, and no line. */
  lemma EmptyBoardFree()
    ensures BlankCells(StateKey(EmptyBoard())) == AllCells()
    ensures NoWinner(EmptyBoard())
  {
    var key := StateKey(EmptyBoard());
    BlankCellsAllBlank(key);
    forall k | 0 <= k < 8
      ensures !Owns(EmptyBoard(), '0', Lines()[k]) && !Owns(EmptyBoard(), '1', Lines()[k])
    {
      assert Lines()[k][0] in Lines()[k];
    }
  }

  /** list(range(9)), the cells in ascending order. */
  function AllCells(): (s: seq<int>)
    ensures |s| == 9 && forall i :: 0 <= i < 9 ==> s[i] == i
  {
    [0, 1, 2, 3, 4, 5, 6, 7, 8]
  }

  /** The other player; like the source, any symbol other than '1' turns into '1'. */
  function Toggle(p: char): (q: char)
    ensures IsPlayer(q)
    ensures IsPlayer(p) ==> q != p
  {
    if p == '1' then '0' else '1'
  }

  // ---------------------------------------------------------------------------
  // State key

  /** The symbols of cells 0..n-1 joined in cell order. */
  function Join(b: map<int, char>, n: nat): (key: string)
    requires n <= 9 && IsBoard(b)
    ensures |key| == n
    ensures forall i :: 0 <= i < n ==> key[i] == b[i]
  {
    if n == 0 then [] else Join(b, n - 1) + [b[n - 1]]
  }

  /** The key under which a board is looked up in a value table: the nine
      cell symbols in cell order (the board dict keeps insertion order 0..8). */
  function StateKey(b: map<int, char>): (key: string)
    requires IsBoard(b)
    ensures |key| == 9
    ensures forall i :: 0 <= i < 9 ==> key[i] == b[i]
  {
    Join(b, 9)
  }

  /** Two boards share a key exactly when they agree on every cell. */
  lemma StateKeyInjective(b1: map<int, char>, b2: map<int, char>)
    requires IsBoard(b1) && IsBoard(b2)
    ensures StateKey(b1) == StateKey(b2) <==> b1 == b2
  {
    if StateKey(b1) == StateKey(b2) {
      forall i | i in b1 ensures i in b2 && b1[i] == b2[i] {
        assert StateKey(b1)[i] == StateKey(b2)[i];
      }
      assert forall i :: i in b2 ==> i in b1;
    }
  }

  /** Writing one cell changes exactly one symbol of the key. */
  lemma StateKeyUpdate(b: map<int, char>, a: int, c: char)
    requires IsBoard(b) && 0 <= a < 9
    ensures IsBoard(b[a := c])
    ensures StateKey(b[a := c]) == StateKey(b)[a := c]
  {
  }

  // ---------------------------------------------------------------------------
  // Win lines

  /** The eight lines of three: rows, columns, main and anti-diagonal. */
  function Lines(): (ls: seq<seq<int>>)
    ensures |ls| == 8
    ensures forall k :: 0 <= k < 8 ==> |ls[k]| == 3
    ensures forall k, j :: 0 <= k < 8 && 0 <= j < 3 ==> 0 <= ls[k][j] < 9
  {
    [[0, 1, 2], [3, 4, 5], [6, 7, 8],
     [0, 3, 6], [1, 4, 7], [2, 5, 8],
     [0, 4, 8], [2, 4, 6]]
  }

  /** Player p holds every cell of the line. */
  predicate Owns(b: map<int, char>, p: char, line: seq<int>) {
    forall c :: c in line ==> c in b && b[c] == p
  }

  /** Player p holds some complete line. */
  predicate HasLine(b: map<int, char>, p: char) {
    exists k :: 0 <= k < 8 && Owns(b, p, Lines()[k])
  }

  /** Nobody holds a complete line. */
  predicate NoWinner(b: map<int, char>) {
    !HasLine(b, '0') && !HasLine(b, '1')
  }

  /** The test check_winner makes: the row and the column of the last move,
      then both diagonals whether or not the move lies on them. */
  predicate WinCheck(b: map<int, char>, p: char, m: int)
    requires IsBoard(b) && 0 <= m < 9
  {
    var col := m % 3;
    var row := m - col;
    || (b[row] == p && b[row + 1] == p && b[row + 2] == p)
    || (b[col] == p && b[col + 3] == p && b[col + 6] == p)
    || (b[0] == p && b[4] == p && b[8] == p)
    || (b[2] == p && b[4] == p && b[6] == p)
  }

  /** Every win the check reports is a complete line of p. */
  lemma WinCheckSound(b: map<int, char>, p: char, m: int)
    requires IsBoard(b) && 0 <= m < 9
    requires WinCheck(b, p, m)
    ensures HasLine(b, p)
  {
    var col := m % 3;
    var row := m - col;
    if b[row] == p && b[row + 1] == p && b[row + 2] == p {
      assert Owns(b, p, Lines()[row / 3]);
    } else if b[col] == p && b[col + 3] == p && b[col + 6] == p {
      assert Owns(b, p, Lines()[3 + col]);
    } else if b[0] == p && b[4] == p && b[8] == p {
      assert Owns(b, p, Lines()[6]);
    } else {
      assert Owns(b, p, Lines()[7]);
    }
  }

  /** Every complete line of p through the last move is reported. */
  lemma WinCheckComplete(b: map<int, char>, p: char, m: int, k: int)
    requires IsBoard(b) && 0 <= m < 9 && 0 <= k < 8
    requires m in Lines()[k] && Owns(b, p, Lines()[k])
    ensures WinCheck(b, p, m)
  {
    var line := Lines()[k];
    assert line[0] in line && line[1] in line && line[2] in line;
  }

  /** When p had no line before placing its mark on m, the check on the last
      move alone finds a win exactly when p now holds any of the eight lines. */
  lemma WinCheckAfterMove(b: map<int, char>, p: char, m: int)
    requires IsBoard(b) && 0 <= m < 9 && IsPlayer(p)
    requires !HasLine(b, p)
    ensures IsBoard(b[m := p])
    ensures WinCheck(b[m := p], p, m) <==> HasLine(b[m := p], p)
  {
    var b' := b[m := p];
    if WinCheck(b', p, m) {
      WinCheckSound(b', p, m);
    }
    if HasLine(b', p) {
      var k :| 0 <= k < 8 && Owns(b', p, Lines()[k]);
      if m !in Lines()[k] {
        assert Owns(b, p, Lines()[k]);
        assert false;
      }
      WinCheckComplete(b', p, m, k);
    }
  }

  /** Placing p's mark leaves the other player's lines as they were. */
  lemma OtherPlayerUnaffected(b: map<int, char>, p: char, q: char, m: int)
    requires IsBoard(b) && 0 <= m < 9 && p != q
    requires !HasLine(b, q)
    ensures !HasLine(b[m := p], q)
  {
    if HasLine(b[m := p], q) {
      var k :| 0 <= k < 8 && Owns(b[m := p], q, Lines()[k]);
      assert Owns(b, q, Lines()[k]);
    }
  }

  // ---------------------------------------------------------------------------
  // Free cells

  /** The ascending list of positions of the blank symbols in a key. */
  function BlankCells(cells: seq<char>): (s: seq<int>)
    ensures forall x :: x in s <==> 0 <= x < |cells| && cells[x] == Blank
    ensures |s| <= |cells|
  {
    if cells == [] then []
    else
      var n := |cells| - 1;
      BlankCells(cells[..n]) + (if cells[n] == Blank then [n] else [])
  }

  /** The blank cells come out in ascending order, as list(range(9)) lists them. */
  lemma {:induction false} BlankCellsAscending(cells: seq<char>)
    ensures forall i, j :: 0 <= i < j < |BlankCells(cells)| ==> BlankCells(cells)[i] < BlankCells(cells)[j]
  {
    if cells != [] {
      var n := |cells| - 1;
      var init := BlankCells(cells[..n]);
      BlankCellsAscending(cells[..n]);
      var s := BlankCells(cells);
      assert s == init + (if cells[n] == Blank then [n] else []);
      forall i, j | 0 <= i < j < |s| ensures s[i] < s[j] {
        if j < |init| {
          assert s[i] == init[i] && s[j] == init[j];
        } else {
          assert init[i] in init;
          assert s[i] == init[i] && s[j] == n;
        }
      }
    }
  }

  /** The position of the first occurrence of x in s. */
  function IndexOf(s: seq<int>, x: int): (i: nat)
    requires x in s
    ensures i < |s| && s[i] == x && x !in s[..i]
  {
    if s[0] == x then 0
    else
      var j := IndexOf(s[1..], x);
      assert s[1..][..j] == s[1..j + 1];
      assert s[..j + 1] == [s[0]] + s[1..j + 1];
      j + 1
  }

  /** list.remove: drops the first occurrence of x and keeps the rest in order. */
  function RemoveFirst(s: seq<int>, x: int): (r: seq<int>)
    requires x in s
    ensures |r| == |s| - 1
  {
    var i := IndexOf(s, x);
    s[..i] + s[i + 1..]
  }

  /** list.remove takes away one occurrence of x and nothing else. */
  lemma RemoveFirstMultiset(s: seq<int>, x: int)
    requires x in s
    ensures multiset(RemoveFirst(s, x)) + multiset{x} == multiset(s)
  {
    var i := IndexOf(s, x);
    assert s == s[..i] + [x] + s[i + 1..];
  }

  /** Removing an entry from a list of cells leaves a list of cells. */
  lemma RemoveFirstCells(s: seq<int>, x: int)
    requires x in s && AreCells(s)
    ensures AreCells(RemoveFirst(s, x))
  {
    var i := IndexOf(s, x);
    var r := RemoveFirst(s, x);
    forall k | 0 <= k < |r| ensures 0 <= r[k] < 9 {
      if k < i {
        assert r[k] == s[k];
      } else {
        assert r[k] == s[k + 1];
      }
    }
  }

  /** IndexOf is the only position holding x with no x before it. */
  lemma IndexOfUnique(s: seq<int>, x: int, j: int)
    requires 0 <= j < |s| && s[j] == x && x !in s[..j]
    ensures IndexOf(s, x) == j
  {
  }

  /** The first occurrence in a concatenation lies in the left part if it can. */
  lemma IndexOfAppend(s: seq<int>, t: seq<int>, x: int)
    requires x in s || x in t
    ensures x in s + t
    ensures x in s ==> IndexOf(s + t, x) == IndexOf(s, x)
    ensures x !in s ==> IndexOf(s + t, x) == |s| + IndexOf(t, x)
  {
    if x in s {
      var j := IndexOf(s, x);
      assert (s + t)[..j] == s[..j];
      IndexOfUnique(s + t, x, j);
    } else {
      var j := IndexOf(t, x);
      assert (s + t)[..|s| + j] == s + t[..j];
      IndexOfUnique(s + t, x, |s| + j);
    }
  }

  lemma RemoveFirstAppendLeft(s: seq<int>, t: seq<int>, x: int)
    requires x in s
    ensures x in s + t
    ensures RemoveFirst(s + t, x) == RemoveFirst(s, x) + t
  {
    IndexOfAppend(s, t, x);
    var i := IndexOf(s, x);
    assert (s + t)[..i] == s[..i];
    assert (s + t)[i + 1..] == s[i + 1..] + t;
  }

  lemma RemoveFirstAppendRight(s: seq<int>, t: seq<int>, x: int)
    requires x !in s && x in t
    ensures x in s + t
    ensures RemoveFirst(s + t, x) == s + RemoveFirst(t, x)
  {
    var i := IndexOf(t, x);
    var u := s + t;
    var j := |s| + i;
    assert u[..j] == s + t[..i];
    assert u[j + 1..] == t[i + 1..];
    IndexOfUnique(u, x, j);
  }

  /** Marking a blank cell a removes exactly a from the list of blank cells,
      keeping the others in order: the list the move's check_winner leaves. */
  lemma {:induction false} BlankCellsAfterMark(cells: seq<char>, a: int, p: char)
    requires 0 <= a < |cells| && cells[a] == Blank && p != Blank
    ensures a in BlankCells(cells)
    ensures BlankCells(cells[a := p]) == RemoveFirst(BlankCells(cells), a)
  {
    var n := |cells| - 1;
    var c' := cells[a := p];
    var init := BlankCells(cells[..n]);
    var last := if cells[n] == Blank then [n] else [];
    assert BlankCells(cells) == init + last;
    if a == n {
      assert c'[..n] == cells[..n];
      assert BlankCells(c') == init;
      RemoveFirstAppendRight(init, [a], a);
    } else {
      assert c'[..n] == cells[..n][a := p];
      assert c'[n] == cells[n];
      assert BlankCells(c') == BlankCells(cells[..n][a := p]) + last;
      BlankCellsAfterMark(cells[..n], a, p);
      RemoveFirstAppendLeft(init, last, a);
    }
  }

  /** A key with no blank symbol has no free cell, and an all-blank key frees every cell. */
  lemma {:induction false} BlankCellsAllBlank(cells: seq<char>)
    requires forall i :: 0 <= i < |cells| ==> cells[i] == Blank
    ensures |BlankCells(cells)| == |cells|
    ensures forall i :: 0 <= i < |cells| ==> BlankCells(cells)[i] == i
  {
    if cells != [] {
      var n := |cells| - 1;
      BlankCellsAllBlank(cells[..n]);
    }
  }

  /** A key whose every position is free is all blank. */
  lemma {:induction false} BlankCellsFull(cells: seq<char>)
    requires |BlankCells(cells)| == |cells|
    ensures forall i :: 0 <= i < |cells| ==> cells[i] == Blank
  {
    if cells != [] {
      var n := |cells| - 1;
      assert cells[..n] + [cells[n]] == cells;
      assert cells[n] == Blank;
      BlankCellsFull(cells[..n]);
      forall i | 0 <= i < n ensures cells[i] == Blank {
        assert cells[..n][i] == cells[i];
      }
    }
  }

  /** A board whose nine cells are all free is the blank board of
      reset_board, nobody holds a line on it, and its free list is every
      cell in ascending order. */
  lemma FullFreeList(b: map<int, char>)
    requires IsBoard(b) && |BlankCells(StateKey(b))| == 9
    ensures b == EmptyBoard() && BlankCells(StateKey(b)) == AllCells() && NoWinner(b)
  {
    BlankCellsFull(StateKey(b));
    assert forall i :: 0 <= i < 9 ==> b[i] == Blank;
    assert b == EmptyBoard();
    EmptyBoardFree();
  }

  // ---------------------------------------------------------------------------
  // Candidate boards of the greedy choice

  /** The board with the cells of s written back to blank, one after the
      other. */
  function RestoreBlank(b: map<int, char>, s: seq<int>): (b': map<int, char>)
    requires IsBoard(b) && AreCells(s)
    ensures IsBoard(b')
    decreases |s|
  {
    if s == [] then b
    else
      var n := |s| - 1;
      RestoreBlank(b, s[..n])[s[n] := Blank]
  }

  /** After the write-backs the cells of s are blank and every other cell is
      as it was. */
  lemma {:induction false} RestoreBlankCells(b: map<int, char>, s: seq<int>)
    requires IsBoard(b) && AreCells(s)
    ensures forall i :: 0 <= i < 9 ==> RestoreBlank(b, s)[i] == if i in s then Blank else b[i]
    decreases |s|
  {
    if s != [] {
      var n := |s| - 1;
      RestoreBlankCells(b, s[..n]);
      assert s == s[..n] + [s[n]];
      forall i | 0 <= i < 9
        ensures RestoreBlank(b, s)[i] == if i in s then Blank else b[i]
      {
        assert i in s <==> i in s[..n] || i == s[n];
      }
    }
  }

  /** Marking candidate i and writing it back to blank restores one more
      candidate. */
  lemma RestoreBlankPrefix(b: map<int, char>, cands: seq<int>, i: int, p: char)
    requires IsBoard(b) && AreCells(cands)
    requires 0 <= i < |cands|
    ensures RestoreBlank(b, cands[..i])[cands[i] := p][cands[i] := Blank] == RestoreBlank(b, cands[..i + 1])
  {
    assert cands[..i + 1][..i] == cands[..i];
    var m := RestoreBlank(b, cands[..i]);
    assert m[cands[i] := p][cands[i] := Blank] == m[cands[i] := Blank];
  }

  /** Restoring cells that are already blank changes nothing. */
  lemma {:induction false} RestoreBlankNoop(b: map<int, char>, s: seq<int>)
    requires IsBoard(b)
    requires AreCells(s) && forall k :: 0 <= k < |s| ==> b[s[k]] == Blank
    ensures RestoreBlank(b, s) == b
    decreases |s|
  {
    if s != [] {
      var n := |s| - 1;
      RestoreBlankNoop(b, s[..n]);
      assert s[n] in b && b[s[n]] == Blank;
      assert b[s[n] := Blank] == b;
    }
  }

  /** The board on which get_action looks up candidate k: the candidates
      before it written back to blank, and p's mark on cands[k]. */
  function CandidateBoard(b: map<int, char>, cands: seq<int>, p: char, k: int): (b': map<int, char>)
    requires IsBoard(b) && 0 <= k < |cands|
    requires AreCells(cands)
    ensures IsBoard(b')
  {
    RestoreBlank(b, cands[..k])[cands[k] := p]
  }

  /** When every candidate cell is blank, candidate k's board is simply the
      current board with p's mark on cands[k]. */
  lemma CandidateOnBlankCells(b: map<int, char>, cands: seq<int>, p: char, k: int)
    requires IsBoard(b) && 0 <= k < |cands|
    requires AreCells(cands) && forall k :: 0 <= k < |cands| ==> b[cands[k]] == Blank
    ensures CandidateBoard(b, cands, p, k) == b[cands[k] := p]
  {
    assert forall x :: x in cands[..k] ==> x in cands;
    RestoreBlankNoop(b, cands[..k]);
  }
}
