/** The two-player games of tick_tack_toe.py: the classic game, and the variant in
    which each player's oldest mark is removed once their history reaches `l` moves. */
module TickTackToeGame {
  import opened TickTackToeGrid
  import opened TickTackToeBoard

  /** A participant. The game tells players apart by identity (`is`), not by name. */
  class Player {
    const name: string

    constructor (name: string)
      ensures this.name == name
    {
      this.name := name;
    }
  }

  /** What the game announces when the loop ends. */
  datatype Report = NobodyWins | PlayerWins(winner: Player)

  /** The `get_move` of a player: a move chosen from a read-only position. The turn
      number stands for everything else the choice depends on (console input, a
      random generator). */
  type MoveSource = (Player, Position, nat) -> Move

  /** The players' own retry loops only return a move that is valid on the position
      they were given; the game relies on it and does not check again. */
  ghost predicate Trusted(source: MoveSource, player1: Player, player2: Player)
  {
    forall pos: Position, t: nat :: IsSquare(pos.board) && !Full(pos.board) ==>
      pos.IsValid(source(player1, pos, t)) && pos.IsValid(source(player2, pos, t))
  }

  /** The player and mark that `change_player` moves to from player `p`: from
      `player1` to `player2` with O, from anybody else to `player1` with X. */
  function Switch(p: Player, player1: Player, player2: Player): (Player, Cell)
  {
    if p == player1 then (player2, O) else (player1, X)
  }

  /** With two distinct players, switching twice comes back to the same player and
      gives back that player's mark. */
  lemma SwitchTwice(p: Player, player1: Player, player2: Player)
    requires player1 != player2 && (p == player1 || p == player2)
    ensures Switch(Switch(p, player1, player2).0, player1, player2)
            == (p, if p == player1 then X else O)
  {
  }

  /** When both seats hold the same player object, a switch from that player lands
      on the second seat with O, and a switch from anybody else on the first seat
      with X. */
  lemma SwitchSamePlayer(p: Player, player: Player)
    ensures Switch(p, player, player) == (player, O) <==> p == player
  {
  }

  /** Each turn of the log is played by the player, with the mark, that
      `change_player` switched to after the turn before; every player is seated. */
  ghost predicate Alternating(log: seq<Turn<Player>>, player1: Player, player2: Player)
  {
    (forall k :: 0 <= k < |log| ==> log[k].player == player1 || log[k].player == player2) &&
    (forall k :: 0 < k < |log| ==>
       (log[k].player, log[k].mark) == Switch(log[k - 1].player, player1, player2))
  }

  /** Each turn's move is the one the mover's source returned for the board the
      turns before it left, at that turn's number. */
  ghost predicate Chosen(source: MoveSource, start: Grid, log: seq<Turn<Player>>)
    requires IsSquare(start) && Legal(start, log)
    decreases |log|
  {
    log == [] ||
    (Chosen(source, start, log[..|log| - 1]) &&
     var last := log[|log| - 1];
     last.move == source(last.player, Position(Replay(start, log[..|log| - 1])), |log| - 1))
  }

  // ---------------------------------------------------------------------------
  // The classic game

  class TickTackToe {
    const n: int
    const board: Board
    const player1: Player
    const player2: Player
    var curPlayer: Player
    var curCell: Cell

    /** The board has the game's size and the active player holds their seat's mark. */
    ghost predicate Valid()
      reads this
    {
      board.Valid() && board.n == n &&
      ((curPlayer == player1 && curCell == X) || (curPlayer == player2 && curCell == O))
    }

    /** A game on an empty n×n board, with `player1` to move with X. */
    constructor (n: int, player1: Player, player2: Player)
      ensures Valid() && fresh(board) && fresh(board.cells)
      ensures this.n == n && this.player1 == player1 && this.player2 == player2
      ensures curPlayer == player1 && curCell == X
      ensures board.Grid() == EmptyGrid(n)
    {
      this.n := n;
      this.player1 := player1;
      this.player2 := player2;
      board := new Board(n);
      curPlayer := player1;
      curCell := X;
    }

    method ChangePlayer()
      requires Valid()
      modifies this
      ensures Valid()
      ensures (curPlayer, curCell) == Switch(old(curPlayer), player1, player2)
    {
      if curPlayer == player1 {
        curPlayer := player2;
        curCell := O;
      } else {
        curPlayer := player1;
        curCell := X;
      }
    }

    /** One pass of the game loop before the board is evaluated again: the active
        player chooses a move on a snapshot of the board, the active mark is written
        there, and the other player becomes active. */
    method PlayTurn(source: MoveSource, t: nat) returns (turn: Turn<Player>)
      requires Valid() && Trusted(source, player1, player2) && !Full(board.Grid())
      modifies this, board.cells
      ensures Valid()
      ensures turn.player == old(curPlayer) && turn.mark == old(curCell) && turn.mark != E
      ensures turn.move == source(old(curPlayer), Position(old(board.Grid())), t)
      ensures Position(old(board.Grid())).IsValid(turn.move)
      ensures board.Grid() == Update(old(board.Grid()), turn.move, turn.mark)
      ensures (curPlayer, curCell) == Switch(turn.player, player1, player2)
    {
      var move := source(curPlayer, Position(board.Grid()), t);
      board.SetCell(move, curCell);
      turn := Turn(curPlayer, move, curCell);
      ChangePlayer();
    }

    /** What the game loop keeps between rounds: the turns of `log`, chosen by the
        players' sources and played from `start` by alternating players beginning
        with `first` holding `firstCell`, give the current board, and the next
        player is the one `change_player` switched to after the last turn. */
    ghost predicate Progress(source: MoveSource, start: Grid, log: seq<Turn<Player>>,
                             first: Player, firstCell: Cell)
      reads this, board.cells
    {
      Valid() && IsSquare(start) && Legal(start, log) && board.Grid() == Replay(start, log) &&
      Chosen(source, start, log) && Alternating(log, player1, player2) &&
      if log == [] then curPlayer == first && curCell == firstCell
      else log[0].player == first && log[0].mark == firstCell &&
           (curPlayer, curCell) == Switch(log[|log| - 1].player, player1, player2)
    }

    /** One round of the game loop on an undecided board: a turn, then the board is
        evaluated again. The turn fills one empty cell. */
    method PlayRound(source: MoveSource, ghost start: Grid, log: seq<Turn<Player>>,
                     ghost first: Player, ghost firstCell: Cell)
      returns (state: Result, log': seq<Turn<Player>>)
      requires Progress(source, start, log, first, firstCell) && Trusted(source, player1, player2)
      requires !Full(board.Grid())
      modifies this, board.cells
      ensures Progress(source, start, log', first, firstCell)
      ensures |log'| == |log| + 1 && log'[..|log|] == log
      ensures state == Classify(board.Grid())
      ensures CountEmpty(board.Grid()) == old(CountEmpty(board.Grid())) - 1
    {
      ghost var before := board.Grid();
      var turn := PlayTurn(source, |log|);
      ValidMoveFillsOneCell(before, turn.move, turn.mark);
      ReplayExtend(start, log, turn);
      log' := log + [turn];
      assert log'[|log'| - 1] == turn && log'[..|log|] == log;
      state := board.CheckState();
    }

    /** The game loop: evaluates the board and plays rounds while it is `Unknown`.
        The log records every turn; replayed on the starting board it gives the
        current board. */
    method PlayUntilDecided(source: MoveSource) returns (state: Result, log: seq<Turn<Player>>)
      requires Valid() && Trusted(source, player1, player2)
      modifies this, board.cells
      ensures state == Classify(board.Grid()) && state != Unknown
      ensures Progress(source, old(board.Grid()), log, old(curPlayer), old(curCell))
    {
      ghost var start := board.Grid();
      state := board.CheckState();
      log := [];
      while state == Unknown
        invariant Progress(source, start, log, old(curPlayer), old(curCell))
        invariant state == Classify(board.Grid())
        decreases CountEmpty(board.Grid())
      {
        state, log := PlayRound(source, start, log, old(curPlayer), old(curCell));
      }
    }

    /** Plays the game to its end, then switches once more: the player announced
        as winner is the one who made the last move. */
    method StartGame(source: MoveSource) returns (state: Result, report: Report, log: seq<Turn<Player>>)
      requires Valid() && Trusted(source, player1, player2)
      modifies this, board.cells
      ensures Valid()
      ensures state == Classify(board.Grid()) && (state == Pair || state == Win)
      ensures Legal(old(board.Grid()), log) && board.Grid() == Replay(old(board.Grid()), log)
      ensures Chosen(source, old(board.Grid()), log)
      ensures |log| <= old(CountEmpty(board.Grid())) <= n * n
      ensures log != [] ==> log[0].player == old(curPlayer) && log[0].mark == old(curCell)
      ensures Alternating(log, player1, player2)
      ensures report == if state == Pair then NobodyWins else PlayerWins(curPlayer)
      ensures log != [] ==> curPlayer == log[|log| - 1].player
    {
      ghost var start := board.Grid();
      CountEmptyBound(start);
      state, log := PlayUntilDecided(source);
      ReplayConsumesEmpties(start, log);
      if player1 != player2 && log != [] {
        SwitchTwice(log[|log| - 1].player, player1, player2);
      }
      ChangePlayer();
      report := if state == Pair then NobodyWins else PlayerWins(curPlayer);
    }
  }

  // ---------------------------------------------------------------------------
  // The bounded-memory game

  /** A Python list of moves: an object, so two fields can name the same list. */
  class MoveList {
    var items: seq<Move>

    constructor ()
      ensures items == []
    {
      items := [];
    }
  }

  /** Every move of `s` lies on the grid, on a cell holding `mark`, and is listed once. */
  ghost predicate Holds(g: Grid, s: seq<Move>, mark: Cell)
    requires IsSquare(g)
  {
    (forall k :: 0 <= k < |s| ==> InRange(g, s[k]) && g[s[k].x][s[k].y] == mark) &&
    (forall k, k' :: 0 <= k < k' < |s| ==> s[k] != s[k'])
  }

  /** Every marked cell of the grid is listed in one of the three histories. */
  ghost predicate Recorded(g: Grid, a: seq<Move>, b: seq<Move>, c: seq<Move>)
    requires IsSquare(g)
  {
    forall x, y :: 0 <= x < |g| && 0 <= y < |g| && g[x][y] != E ==>
      Move(x, y) in a || Move(x, y) in b || Move(x, y) in c
  }

  /** No move is listed in both histories. */
  ghost predicate Disjoint(s: seq<Move>, t: seq<Move>)
  {
    forall m :: m in s ==> m !in t
  }

  /** Histories whose cells hold different marks share no move. */
  lemma MarksSeparate(g: Grid, s: seq<Move>, ms: Cell, t: seq<Move>, mt: Cell)
    requires IsSquare(g) && Holds(g, s, ms) && Holds(g, t, mt) && ms != mt
    ensures Disjoint(s, t) && Disjoint(t, s)
  {
  }

  /** A history of marked cells does not list an empty cell. */
  lemma EmptyCellNotHeld(g: Grid, s: seq<Move>, mark: Cell, m: Move)
    requires IsSquare(g) && Holds(g, s, mark) && mark != E && InRange(g, m) && g[m.x][m.y] == E
    ensures m !in s
  {
    forall k | 0 <= k < |s|
      ensures s[k] != m
    {
    }
  }

  /** The marks on the board are exactly those the histories remember: X for
      `player1_list` and for the list play starts with, O for `player2_list`. */
  ghost predicate Agrees(g: Grid, first: seq<Move>, second: seq<Move>, initial: seq<Move>)
    requires IsSquare(g)
  {
    Holds(g, first, X) && Holds(g, second, O) && Holds(g, initial, X) &&
    Disjoint(first, initial) &&
    Recorded(g, first, second, initial)
  }

  /** The grid and active history after one turn of the bounded game: the mark is
      written and the move appended; once the history has `l` moves or more, its
      oldest move is removed and that cell emptied. */
  function AfterTurn(g: Grid, own: seq<Move>, mark: Cell, m: Move, l: int): (r: (Grid, seq<Move>))
    requires IsSquare(g) && InRange(g, m)
    requires forall k :: 0 <= k < |own| ==> InRange(g, own[k])
    ensures IsSquare(r.0) && |r.0| == |g|
    ensures forall k :: 0 <= k < |r.1| ==> InRange(g, r.1[k])
  {
    var g1 := Update(g, m, mark);
    var own1 := own + [m];
    var oldest := if own == [] then m else own[0];
    assert own1[0] == oldest && InRange(g, oldest);
    assert |g1| == |g|;
    if |own1| >= l then (Update(g1, oldest, E), own1[1..]) else (g1, own1)
  }

  /** The largest history a player keeps between turns: eviction at `>= l` leaves
      at most l - 1 moves. */
  function Cap(l: int): nat
  {
    if l >= 1 then l - 1 else 0
  }

  lemma HoldsAfterWrite(g: Grid, s: seq<Move>, mark: Cell, m: Move, c: Cell)
    requires IsSquare(g) && InRange(g, m) && Holds(g, s, mark) && m !in s
    ensures Holds(Update(g, m, c), s, mark)
  {
    var h := Update(g, m, c);
    forall k | 0 <= k < |s|
      ensures h[s[k].x][s[k].y] == mark
    {
      assert s[k] != m;
    }
  }

  /** One turn keeps every history's marks on the board and every mark recorded. */
  lemma TurnKeepsAgreement(g: Grid, own: seq<Move>, ownMark: Cell, o1: seq<Move>, mark1: Cell,
                           o2: seq<Move>, mark2: Cell, m: Move, l: int)
    requires IsSquare(g) && Position(g).IsValid(m)
    requires ownMark != E && mark1 != E && mark2 != E
    requires Holds(g, own, ownMark) && Holds(g, o1, mark1) && Holds(g, o2, mark2)
    requires Disjoint(own, o1) && Disjoint(own, o2) && Recorded(g, own, o1, o2)
    ensures var (h, own') := AfterTurn(g, own, ownMark, m, l);
            Holds(h, own', ownMark) && Holds(h, o1, mark1) && Holds(h, o2, mark2) &&
            Disjoint(own', o1) && Disjoint(own', o2) && Recorded(h, own', o1, o2)
  {
    EmptyCellNotHeld(g, own, ownMark, m);
    EmptyCellNotHeld(g, o1, mark1, m);
    EmptyCellNotHeld(g, o2, mark2, m);
    var g1 := Update(g, m, ownMark);
    var own1 := own + [m];
    HoldsAfterWrite(g, o1, mark1, m, ownMark);
    HoldsAfterWrite(g, o2, mark2, m, ownMark);
    assert Holds(g1, own1, ownMark) by {
      HoldsAfterWrite(g, own, ownMark, m, ownMark);
    }
    assert Recorded(g1, own1, o1, o2);
    if |own1| >= l {
      var e := own1[0];
      var h := Update(g1, e, E);
      assert e in own1;
      assert e !in o1 && e !in o2;
      HoldsAfterWrite(g1, o1, mark1, e, E);
      HoldsAfterWrite(g1, o2, mark2, e, E);
      assert Holds(h, own1[1..], ownMark) by {
        assert e !in own1[1..];
        HoldsAfterWrite(g1, own1[1..], ownMark, e, E);
      }
      forall x, y | 0 <= x < |h| && 0 <= y < |h| && h[x][y] != E
        ensures Move(x, y) in own1[1..] || Move(x, y) in o1 || Move(x, y) in o2
      {
        assert Move(x, y) != e;
        assert Move(x, y) in own1 ==> Move(x, y) in own1[1..];
      }
    }
  }

  /** Which history is active: `player1_list`, `player2_list`, or the list play
      starts with. */
  datatype Seat = First | Second | Opening

  /** The histories agree with the board, none is longer than `Cap(l)`, and the
      list play starts with holds at most the first move. */
  ghost predicate Bounded(g: Grid, first: seq<Move>, second: seq<Move>, initial: seq<Move>, l: int)
    requires IsSquare(g)
  {
    |first| <= Cap(l) && |second| <= Cap(l) && |initial| <= Cap(l) && |initial| <= 1 &&
    Agrees(g, first, second, initial)
  }

  /** Whichever history is active, a turn that writes its mark on an empty cell
      keeps the histories bounded and in agreement with the board. The list play
      starts with is active only while it is empty. */
  lemma TurnKeepsBounds(g: Grid, first: seq<Move>, second: seq<Move>, initial: seq<Move>,
                        seat: Seat, m: Move, l: int)
    requires IsSquare(g) && Position(g).IsValid(m) && Bounded(g, first, second, initial, l)
    requires seat == Opening ==> initial == []
    ensures var own := match seat case First => first case Second => second case Opening => initial;
            var mark := if seat == Second then O else X;
            var (h, own') := AfterTurn(g, own, mark, m, l);
            Bounded(h, if seat == First then own' else first, if seat == Second then own' else second,
                    if seat == Opening then own' else initial, l)
  {
    MarksSeparate(g, first, X, second, O);
    MarksSeparate(g, initial, X, second, O);
    match seat {
      case First =>
        TurnKeepsAgreement(g, first, X, second, O, initial, X, m, l);
      case Second =>
        TurnKeepsAgreement(g, second, O, first, X, initial, X, m, l);
      case Opening =>
        TurnKeepsAgreement(g, initial, X, first, X, second, O, m, l);
    }
  }

  /** The board and the three histories of the bounded game, as values. */
  datatype Memory = Memory(grid: Grid, first: seq<Move>, second: seq<Move>, initial: seq<Move>)

  /** The grid is square and every history lists cells of it. */
  predicate Fits(mem: Memory)
  {
    IsSquare(mem.grid) &&
    (forall k :: 0 <= k < |mem.first| ==> InRange(mem.grid, mem.first[k])) &&
    (forall k :: 0 <= k < |mem.second| ==> InRange(mem.grid, mem.second[k])) &&
    (forall k :: 0 <= k < |mem.initial| ==> InRange(mem.grid, mem.initial[k]))
  }

  /** The mark written by the owner of a history: O for `player2_list`, X otherwise. */
  function SeatMark(seat: Seat): Cell
  {
    if seat == Second then O else X
  }

  /** The history that is active after the turns of `log`: the starting one before
      any turn, afterwards the list of the player `change_player` switched to. */
  function NextSeat(log: seq<Turn<Player>>, firstSeat: Seat, player1: Player): Seat
  {
    if log == [] then firstSeat
    else if log[|log| - 1].player == player1 then Second
    else First
  }

  /** One turn on the history of `seat`, with that history's mark. */
  function Apply(mem: Memory, seat: Seat, m: Move, l: int): (r: Memory)
    requires Fits(mem) && InRange(mem.grid, m)
    ensures Fits(r) && |r.grid| == |mem.grid|
  {
    var mark := SeatMark(seat);
    match seat
    case First =>
      var (h, own) := AfterTurn(mem.grid, mem.first, mark, m, l);
      Memory(h, own, mem.second, mem.initial)
    case Second =>
      var (h, own) := AfterTurn(mem.grid, mem.second, mark, m, l);
      Memory(h, mem.first, own, mem.initial)
    case Opening =>
      var (h, own) := AfterTurn(mem.grid, mem.initial, mark, m, l);
      Memory(h, mem.first, mem.second, own)
  }

  /** Every move of `log` is valid on the board the turns before it left. */
  ghost predicate MemoryLegal(start: Memory, log: seq<Turn<Player>>, firstSeat: Seat,
                              player1: Player, l: int)
    requires Fits(start)
    decreases |log|, 0
  {
    log == [] ||
    (MemoryLegal(start, log[..|log| - 1], firstSeat, player1, l) &&
     Position(MemoryReplay(start, log[..|log| - 1], firstSeat, player1, l).grid)
       .IsValid(log[|log| - 1].move))
  }

  /** The board and histories after playing the turns of `log` from `start`, each
      on the history active at that point. */
  ghost function MemoryReplay(start: Memory, log: seq<Turn<Player>>, firstSeat: Seat,
                              player1: Player, l: int): (r: Memory)
    requires Fits(start) && MemoryLegal(start, log, firstSeat, player1, l)
    ensures Fits(r) && |r.grid| == |start.grid|
    decreases |log|, 1
  {
    if log == [] then start
    else
      var prefix := log[..|log| - 1];
      Apply(MemoryReplay(start, prefix, firstSeat, player1, l), NextSeat(prefix, firstSeat, player1),
            log[|log| - 1].move, l)
  }

  /** Each turn's move is the one the mover's source returned for the board the
      turns before it left, at that turn's number. */
  ghost predicate MemoryChosen(source: MoveSource, start: Memory, log: seq<Turn<Player>>,
                               firstSeat: Seat, player1: Player, l: int)
    requires Fits(start) && MemoryLegal(start, log, firstSeat, player1, l)
    decreases |log|
  {
    log == [] ||
    (MemoryChosen(source, start, log[..|log| - 1], firstSeat, player1, l) &&
     var last := log[|log| - 1];
     last.move == source(last.player,
                         Position(MemoryReplay(start, log[..|log| - 1], firstSeat, player1, l).grid),
                         |log| - 1))
  }

  /** A chosen valid move extends a log: the replay makes one more turn on the
      history active after the log. */
  lemma MemoryReplayExtend(source: MoveSource, start: Memory, log: seq<Turn<Player>>, t: Turn<Player>,
                           firstSeat: Seat, player1: Player, l: int)
    requires Fits(start) && MemoryLegal(start, log, firstSeat, player1, l)
    requires Position(MemoryReplay(start, log, firstSeat, player1, l).grid).IsValid(t.move)
    ensures MemoryLegal(start, log + [t], firstSeat, player1, l)
    ensures MemoryReplay(start, log + [t], firstSeat, player1, l)
            == Apply(MemoryReplay(start, log, firstSeat, player1, l), NextSeat(log, firstSeat, player1), t.move, l)
    ensures MemoryChosen(source, start, log, firstSeat, player1, l) &&
            t.move == source(t.player, Position(MemoryReplay(start, log, firstSeat, player1, l).grid), |log|)
            ==> MemoryChosen(source, start, log + [t], firstSeat, player1, l)
  {
    assert (log + [t])[..|log|] == log;
  }

  /** Replaying legal turns from bounded histories keeps them bounded and in
      agreement with the board, provided play starting on the initial list starts
      with it empty. */
  lemma {:induction false} MemoryReplayBounded(start: Memory, log: seq<Turn<Player>>, firstSeat: Seat,
                                               player1: Player, l: int)
    requires Fits(start) && MemoryLegal(start, log, firstSeat, player1, l)
    requires Bounded(start.grid, start.first, start.second, start.initial, l)
    requires firstSeat == Opening ==> start.initial == []
    ensures var r := MemoryReplay(start, log, firstSeat, player1, l);
            Bounded(r.grid, r.first, r.second, r.initial, l)
    decreases |log|
  {
    if log != [] {
      var prefix := log[..|log| - 1];
      MemoryReplayBounded(start, prefix, firstSeat, player1, l);
      var mem := MemoryReplay(start, prefix, firstSeat, player1, l);
      var seat := NextSeat(prefix, firstSeat, player1);
      TurnKeepsBounds(mem.grid, mem.first, mem.second, mem.initial, seat, log[|log| - 1].move, l);
    }
  }

  /** When play starts on the empty initial list and `l >= 2`, the first move is
      recorded there and stays there: later turns go to the players' own lists, so
      player 1's first mark is never evicted. */
  lemma {:induction false} OpeningKeepsFirstMove(start: Memory, log: seq<Turn<Player>>,
                                                 player1: Player, l: int)
    requires Fits(start) && MemoryLegal(start, log, Opening, player1, l)
    requires start.initial == [] && l >= 2 && log != []
    ensures MemoryReplay(start, log, Opening, player1, l).initial == [log[0].move]
    decreases |log|
  {
    var prefix := log[..|log| - 1];
    if prefix != [] {
      OpeningKeepsFirstMove(start, prefix, player1, l);
      assert NextSeat(prefix, Opening, player1) != Opening;
    }
  }

  /** The log of a bounded game from `start`: every move valid where it was played
      and the one its mover's source chose, the players alternating from `first`
      holding `firstCell`. */
  ghost predicate Played(source: MoveSource, start: Memory, log: seq<Turn<Player>>, first: Player,
                         firstCell: Cell, firstSeat: Seat, player1: Player, player2: Player, l: int)
  {
    Fits(start) && MemoryLegal(start, log, firstSeat, player1, l) &&
    MemoryChosen(source, start, log, firstSeat, player1, l) &&
    Alternating(log, player1, player2) &&
    (log != [] ==> log[0].player == first && log[0].mark == firstCell)
  }

  /** The turn that the next player's source chooses, valid on the replayed board,
      extends a played log by one turn on the history active after the log. */
  lemma PlayedExtend(source: MoveSource, start: Memory, log: seq<Turn<Player>>, t: Turn<Player>,
                     first: Player, firstCell: Cell, firstSeat: Seat,
                     player1: Player, player2: Player, l: int)
    requires Played(source, start, log, first, firstCell, firstSeat, player1, player2, l)
    requires Position(MemoryReplay(start, log, firstSeat, player1, l).grid).IsValid(t.move)
    requires t.move == source(t.player, Position(MemoryReplay(start, log, firstSeat, player1, l).grid), |log|)
    requires t.player == player1 || t.player == player2
    requires (t.player, t.mark) == if log == [] then (first, firstCell)
                                   else Switch(log[|log| - 1].player, player1, player2)
    ensures Played(source, start, log + [t], first, firstCell, firstSeat, player1, player2, l)
    ensures MemoryReplay(start, log + [t], firstSeat, player1, l)
            == Apply(MemoryReplay(start, log, firstSeat, player1, l), NextSeat(log, firstSeat, player1), t.move, l)
    ensures NextSeat(log + [t], firstSeat, player1) == if t.player == player1 then Second else First
  {
    MemoryReplayExtend(source, start, log, t, firstSeat, player1, l);
  }

  // ---------------------------------------------------------------------------
  // Short memory: with l < n the bounded game is never decided

  /** The cells of a set of distinct moves cannot outnumber a list containing them all. */
  lemma {:induction false} DistinctWithin(a: seq<Move>, b: seq<Move>)
    requires forall k, k' :: 0 <= k < k' < |a| ==> a[k] != a[k']
    requires forall k :: 0 <= k < |a| ==> a[k] in b
    ensures |a| <= |b|
  {
    DistinctCard(a);
    SetCardBound(b);
    var sa := set x | x in a;
    var sb := set x | x in b;
    assert sa <= sb;
    assert sb == sa + (sb - sa);
  }

  lemma {:induction false} DistinctCard(a: seq<Move>)
    requires forall k, k' :: 0 <= k < k' < |a| ==> a[k] != a[k']
    ensures |set x | x in a| == |a|
  {
    if a != [] {
      var p := a[..|a| - 1];
      DistinctCard(p);
      assert (set x | x in a) == (set x | x in p) + {a[|a| - 1]};
      assert a[|a| - 1] !in p;
    }
  }

  lemma {:induction false} SetCardBound(b: seq<Move>)
    ensures |set x | x in b| <= |b|
  {
    if b != [] {
      var p := b[..|b| - 1];
      SetCardBound(p);
      assert (set x | x in b) == (set x | x in p) + {b[|b| - 1]};
    }
  }

  /** A line of distinct cells all holding one mark needs a remembered move per
      cell: X cells come from `player1_list` and the initial list, O cells from
      `player2_list`. */
  lemma LineNeedsMoves(g: Grid, first: seq<Move>, second: seq<Move>, initial: seq<Move>,
                       line: seq<Move>, c: Cell)
    requires IsSquare(g) && Agrees(g, first, second, initial) && c != E
    requires forall k, k' :: 0 <= k < k' < |line| ==> line[k] != line[k']
    requires forall k :: 0 <= k < |line| ==> InRange(g, line[k]) && g[line[k].x][line[k].y] == c
    ensures c == X ==> |line| <= |first| + |initial|
    ensures c == O ==> |line| <= |second|
  {
    forall k | 0 <= k < |line|
      ensures c == X ==> line[k] in first + initial
      ensures c == O ==> line[k] in second
    {
      var m := line[k];
      assert Move(m.x, m.y) == m;
      assert m in first || m in second || m in initial;
      if m in second {
        var i :| 0 <= i < |second| && second[i] == m;
        assert g[m.x][m.y] == O;
      }
      if m in first {
        var i :| 0 <= i < |first| && first[i] == m;
        assert g[m.x][m.y] == X;
      }
      if m in initial {
        var i :| 0 <= i < |initial| && initial[i] == m;
        assert g[m.x][m.y] == X;
      }
    }
    if c == X {
      DistinctWithin(line, first + initial);
    } else {
      DistinctWithin(line, second);
    }
  }

  /** The moves the short-memory lemmas need are fewer than a line is long. */
  lemma ShortMemoryCounts(g: Grid, first: seq<Move>, second: seq<Move>, initial: seq<Move>, l: int)
    requires IsSquare(g) && 1 <= |g| && l < |g| && Bounded(g, first, second, initial, l)
    ensures |first| + |initial| < |g| && |second| < |g|
    ensures 2 * |g| > |first| + |second| + |initial| || (l <= 1 && first == second == initial == [])
  {
  }

  /** A line of `|g|` distinct cells is not uniform when fewer moves are remembered. */
  lemma ShortLineNotUniform(g: Grid, first: seq<Move>, second: seq<Move>, initial: seq<Move>, l: int,
                            line: seq<Move>, cells: seq<Cell>)
    requires IsSquare(g) && 1 <= |g| && l < |g| && Bounded(g, first, second, initial, l)
    requires |line| == |g| == |cells| && forall k, k' :: 0 <= k < k' < |line| ==> line[k] != line[k']
    requires forall k :: 0 <= k < |line| ==> InRange(g, line[k]) && cells[k] == g[line[k].x][line[k].y]
    ensures !Uniform(cells)
  {
    if Uniform(cells) {
      ShortMemoryCounts(g, first, second, initial, l);
      LineNeedsMoves(g, first, second, initial, line, cells[0]);
    }
  }

  /** With fewer remembered moves than a line is long, no line is ever uniform and
      the board is never full: a board of size n >= 1 with `l < n` stays `Unknown`,
      so the bounded game on it never ends. */
  lemma ShortMemoryUndecided(g: Grid, first: seq<Move>, second: seq<Move>, initial: seq<Move>, l: int)
    requires IsSquare(g) && 1 <= |g| && l < |g| && Bounded(g, first, second, initial, l)
    ensures Classify(g) == Unknown
  {
    var n := |g|;
    ShortLineNotUniform(g, first, second, initial, l, seq(n, k => Move(k, k)), Diagonal(g));
    ShortLineNotUniform(g, first, second, initial, l, seq(n, k => Move(n - 1 - k, k)), AntiDiagonal(g));
    forall i | 0 <= i < n
      ensures !Uniform(g[i]) && !Uniform(Column(g, i))
    {
      ShortLineNotUniform(g, first, second, initial, l, seq(n, k => Move(i, k)), g[i]);
      ShortLineNotUniform(g, first, second, initial, l, seq(n, k => Move(k, i)), Column(g, i));
    }
    ShortMemoryNotFull(g, first, second, initial, l);
  }

  /** Every board reached by legal turns from a fresh bounded game with `l < n`
      is `Unknown`: such a game never ends. */
  lemma ShortMemoryNeverDecides(start: Memory, log: seq<Turn<Player>>, firstSeat: Seat,
                                player1: Player, l: int)
    requires Fits(start) && MemoryLegal(start, log, firstSeat, player1, l)
    requires Bounded(start.grid, start.first, start.second, start.initial, l)
    requires firstSeat == Opening ==> start.initial == []
    requires 1 <= |start.grid| && l < |start.grid|
    ensures Classify(MemoryReplay(start, log, firstSeat, player1, l).grid) == Unknown
  {
    MemoryReplayBounded(start, log, firstSeat, player1, l);
    var r := MemoryReplay(start, log, firstSeat, player1, l);
    ShortMemoryUndecided(r.grid, r.first, r.second, r.initial, l);
  }

  /** With `l < n` the histories are too short to cover the board. */
  lemma ShortMemoryNotFull(g: Grid, first: seq<Move>, second: seq<Move>, initial: seq<Move>, l: int)
    requires IsSquare(g) && 1 <= |g| && l < |g| && Bounded(g, first, second, initial, l)
    ensures !Full(g)
  {
    var n := |g|;
    ShortMemoryCounts(g, first, second, initial, l);
    if l <= 1 {
      // Nothing is remembered, so no cell holds a mark.
      assert g[0][0] == E;
    } else if Full(g) {
      var rows := seq(n, k => Move(0, k)) + seq(n, k => Move(1, k));
      forall k | 0 <= k < |rows|
        ensures rows[k] in first + second + initial
      {
        var m := rows[k];
        assert g[m.x][m.y] != E;
        assert Move(m.x, m.y) == m;
      }
      DistinctWithin(rows, first + second + initial);
    }
  }

  class TickTackToeWithMaxCells {
    const n: int
    /** The history length at which a player's oldest mark is removed. */
    const l: int
    const board: Board
    const player1: Player
    const player2: Player
    const player1List: MoveList
    const player2List: MoveList
    /** The list `cur_player_list` starts with: neither player's list. */
    ghost const initialList: MoveList
    var curPlayer: Player
    var curCell: Cell
    var curPlayerList: MoveList

    /** Board and histories agree and no history is longer than `Cap(l)`. */
    ghost predicate Histories()
      reads this, board.cells, player1List, player2List, initialList
    {
      board.Valid() && board.n == n &&
      player1List != player2List && player1List != initialList && player2List != initialList &&
      Bounded(board.Grid(), player1List.items, player2List.items, initialList.items, l)
    }

    /** Between turns the active player, mark and history belong together; the
        initial list is active only before the first move. */
    ghost predicate Valid()
      reads this, board.cells, player1List, player2List, initialList
    {
      Histories() &&
      ((curPlayer == player1 && curCell == X && curPlayerList == player1List) ||
       (curPlayer == player2 && curCell == O && curPlayerList == player2List) ||
       (curPlayer == player1 && curCell == X && curPlayerList == initialList && initialList.items == []))
    }

    constructor (n: int, l: int, player1: Player, player2: Player)
      ensures Valid() && fresh(board) && fresh(board.cells)
      ensures fresh(player1List) && fresh(player2List) && fresh(initialList)
      ensures this.n == n && this.l == l && this.player1 == player1 && this.player2 == player2
      ensures curPlayer == player1 && curCell == X && curPlayerList == initialList
      ensures player1List.items == [] && player2List.items == [] && initialList.items == []
      ensures board.Grid() == EmptyGrid(n)
    {
      this.n := n;
      this.l := l;
      this.player1 := player1;
      this.player2 := player2;
      board := new Board(n);
      curPlayer := player1;
      curCell := X;
      player1List := new MoveList();
      player2List := new MoveList();
      var started := new MoveList();
      curPlayerList := started;
      initialList := started;
    }

    method ChangePlayer()
      requires Histories()
      modifies this
      ensures Valid()
      ensures (curPlayer, curCell) == Switch(old(curPlayer), player1, player2)
      ensures curPlayerList == if old(curPlayer) == player1 then player2List else player1List
    {
      if curPlayer == player1 {
        curPlayer := player2;
        curCell := O;
        curPlayerList := player2List;
      } else {
        curPlayer := player1;
        curCell := X;
        curPlayerList := player1List;
      }
    }

    /** The active history as a seat. */
    ghost function ActiveSeat(): Seat
      reads this
    {
      if curPlayerList == player1List then First
      else if curPlayerList == player2List then Second
      else Opening
    }

    /** Writes `mark` on `move`, appends the move to the active history and, once
        that history has `l` moves or more, pops its oldest move and empties that
        cell. */
    method WriteAndEvict(move: Move, mark: Cell)
      requires board.Valid() && InRange(board.Grid(), move)
      requires forall k :: 0 <= k < |curPlayerList.items| ==> InRange(board.Grid(), curPlayerList.items[k])
      modifies board.cells, curPlayerList
      ensures (board.Grid(), curPlayerList.items)
              == AfterTurn(old(board.Grid()), old(curPlayerList.items), mark, move, l)
    {
      board.SetCell(move, mark);
      curPlayerList.items := curPlayerList.items + [move];
      if |curPlayerList.items| >= l {
        var oldest := curPlayerList.items[0];
        curPlayerList.items := curPlayerList.items[1..];
        board.SetCell(oldest, E);
      }
    }

    /** One turn of `start_game` before the board is evaluated: the active mark is
        written on `move` and the active history updated; the histories stay
        bounded and in agreement with the board. */
    method PlaceAndEvict(move: Move)
      requires Valid() && Position(board.Grid()).IsValid(move)
      modifies board.cells, curPlayerList
      ensures Histories()
      ensures (board.Grid(), curPlayerList.items)
              == AfterTurn(old(board.Grid()), old(curPlayerList.items), curCell, move, l)
    {
      ghost var g := board.Grid();
      ghost var first, second, initial := player1List.items, player2List.items, initialList.items;
      ghost var seat := ActiveSeat();
      WriteAndEvict(move, curCell);
      TurnKeepsBounds(g, first, second, initial, seat, move, l);
    }

    /** The board and the three histories as values. */
    ghost function Snapshot(): (mem: Memory)
      requires board.Valid()
      reads this, board.cells, player1List, player2List, initialList
    {
      Memory(board.Grid(), player1List.items, player2List.items, initialList.items)
    }

    /** One turn before the board is evaluated: the active player chooses a move
        on a snapshot of the board, it is placed on the active history with
        possible eviction, and the other player becomes active. */
    method PlayTurn(source: MoveSource, t: nat) returns (turn: Turn<Player>)
      requires Valid() && Trusted(source, player1, player2) && !Full(board.Grid())
      modifies this, board.cells, curPlayerList
      ensures Valid() && curPlayerList != initialList
      ensures turn.player == old(curPlayer) && turn.mark == old(curCell)
      ensures turn.move == source(old(curPlayer), Position(old(board.Grid())), t)
      ensures Position(old(board.Grid())).IsValid(turn.move)
      ensures Snapshot() == Apply(old(Snapshot()), old(ActiveSeat()), turn.move, l)
      ensures (curPlayer, curCell) == Switch(turn.player, player1, player2)
      ensures ActiveSeat() == if turn.player == player1 then Second else First
    {
      var move := source(curPlayer, Position(board.Grid()), t);
      turn := Turn(curPlayer, move, curCell);
      PlaceAndEvict(move);
      ChangePlayer();
    }

    /** What the loop of `StartGame` keeps between rounds: the turns of `log`,
        chosen by the players' sources and played from `start` on the history
        active at each point, give the current board and histories; they
        alternate players beginning with `first` holding `firstCell`, and once
        play has begun the initial list is never active again. */
    ghost predicate Progress(source: MoveSource, start: Memory, log: seq<Turn<Player>>,
                             first: Player, firstCell: Cell, firstSeat: Seat)
      reads this, board.cells, player1List, player2List, initialList
    {
      Valid() && Played(source, start, log, first, firstCell, firstSeat, player1, player2, l) &&
      Snapshot() == MemoryReplay(start, log, firstSeat, player1, l) &&
      ActiveSeat() == NextSeat(log, firstSeat, player1) &&
      (if log == [] then curPlayer == first && curCell == firstCell
       else curPlayerList != initialList &&
            (curPlayer, curCell) == Switch(log[|log| - 1].player, player1, player2))
    }

    /** One round of the loop on an undecided board: the active player's move is
        placed (possibly evicting their oldest mark) and the other player becomes
        active; the turn is added to the log. */
    method PlayRound(source: MoveSource, ghost start: Memory, log: seq<Turn<Player>>,
                     ghost first: Player, ghost firstCell: Cell, ghost firstSeat: Seat)
      returns (log': seq<Turn<Player>>)
      requires Progress(source, start, log, first, firstCell, firstSeat)
      requires Trusted(source, player1, player2) && !Full(board.Grid())
      modifies this, board.cells, player1List, player2List, initialList
      ensures Progress(source, start, log', first, firstCell, firstSeat)
      ensures |log'| == |log| + 1 && log'[..|log|] == log
    {
      var turn := PlayTurn(source, |log|);
      PlayedExtend(source, start, log, turn, first, firstCell, firstSeat, player1, player2, l);
      log' := log + [turn];
      assert log'[|log'| - 1] == turn && log'[..|log|] == log;
    }

    /** The loop of `StartGame`: evaluates the board and plays rounds while it is
        `Unknown` and fewer than `fuel` turns have been played. */
    method PlayUntilDecided(source: MoveSource, fuel: nat) returns (state: Result, log: seq<Turn<Player>>)
      requires Valid() && Trusted(source, player1, player2)
      modifies this, board.cells, player1List, player2List, initialList
      ensures Progress(source, old(Snapshot()), log, old(curPlayer), old(curCell), old(ActiveSeat()))
      ensures state == Classify(board.Grid()) && |log| <= fuel
      ensures state == Unknown ==> |log| == fuel
    {
      ghost var start, seat := Snapshot(), ActiveSeat();
      state := board.CheckState();
      log := [];
      while state == Unknown && |log| < fuel
        invariant Progress(source, start, log, old(curPlayer), old(curCell), seat)
        invariant state == Classify(board.Grid()) && |log| <= fuel
        decreases fuel - |log|
      {
        log := PlayRound(source, start, log, old(curPlayer), old(curCell), seat);
        state := board.CheckState();
      }
    }

    /** Plays rounds, as the classic game does but through `PlaceAndEvict`, until
        the board is no longer `Unknown` or `fuel` turns have been played. On a
        board of size n >= 1 with `l < n` the board is never decided, so the
        loop never ends. */
    method StartGame(source: MoveSource, fuel: nat)
      returns (finished: bool, state: Result, report: Option<Report>, log: seq<Turn<Player>>)
      requires Valid() && Trusted(source, player1, player2)
      modifies this, board.cells, player1List, player2List, initialList
      ensures Valid()
      ensures state == Classify(board.Grid()) && state != Lose
      ensures finished <==> state != Unknown
      ensures |log| <= fuel && (!finished ==> |log| == fuel)
      ensures Fits(old(Snapshot())) && MemoryLegal(old(Snapshot()), log, old(ActiveSeat()), player1, l)
      ensures Snapshot() == MemoryReplay(old(Snapshot()), log, old(ActiveSeat()), player1, l)
      ensures MemoryChosen(source, old(Snapshot()), log, old(ActiveSeat()), player1, l)
      ensures log != [] ==> log[0].player == old(curPlayer) && log[0].mark == old(curCell)
      ensures Alternating(log, player1, player2)
      ensures report == if !finished then None
                        else if state == Pair then Some(NobodyWins)
                        else Some(PlayerWins(curPlayer))
      ensures finished && log != [] ==> curPlayer == log[|log| - 1].player
      ensures old(curPlayerList) == initialList && l >= 2 && log != [] ==>
                initialList.items == [log[0].move]
      ensures 1 <= n && l < n ==> !finished
    {
      state, log := PlayUntilDecided(source, fuel);
      if old(curPlayerList) == initialList && l >= 2 && log != [] {
        OpeningKeepsFirstMove(old(Snapshot()), log, player1, l);
      }
      if 1 <= n && l < n {
        ShortMemoryUndecided(board.Grid(), player1List.items, player2List.items, initialList.items, l);
      }
      if state == Unknown {
        return false, state, None, log;
      }
      if player1 != player2 && log != [] {
        SwitchTwice(log[|log| - 1].player, player1, player2);
      }
      ChangePlayer();
      finished := true;
      report := if state == Pair then Some(NobodyWins) else Some(PlayerWins(curPlayer));
    }
  }

  /** A new 3×3 game in which marks are removed at a history of 2 moves: whatever
      the players choose, it is still undecided after any number of turns, and
      player 1's opening mark is still recorded in the initial list. */
  method ThreeByThreeWithTwoNeverEnds(source: MoveSource, player1: Player, player2: Player, fuel: nat)
    returns (finished: bool, log: seq<Turn<Player>>, ghost opening: seq<Move>)
    requires Trusted(source, player1, player2)
    ensures !finished && |log| == fuel
    ensures log != [] ==> opening == [log[0].move]
  {
    var game := new TickTackToeWithMaxCells(3, 2, player1, player2);
    var state, report;
    finished, state, report, log := game.StartGame(source, fuel);
    opening := game.initialList.items;
  }
}
