/** solutions/word-search-ii.java: the words of a list that can be traced on a
    board of letters, moving between horizontally or vertically adjacent
    cells and using no cell twice. The list goes into a trie (the same trie
    as custom/TrieDataStructure.java, see TrieModel); a depth-first search
    from every cell walks the trie alongside the board, marking the cells of
    the current path with '*'. */
module WordSearch {
  import opened TrieModel

  type Cell = (int, int)

  predicate Adjacent(a: Cell, b: Cell)
  {
    || (a.0 == b.0 && (a.1 == b.1 + 1 || a.1 + 1 == b.1))
    || (a.1 == b.1 && (a.0 == b.0 + 1 || a.0 + 1 == b.0))
  }

  /** A rows × cols grid. */
  predicate Rect(grid: seq<seq<char>>, rows: int, cols: int)
  {
    |grid| == rows && forall r :: 0 <= r < rows ==> |grid[r]| == cols
  }

  /** Every cell holds a lower-case letter. */
  predicate Letters(grid: seq<seq<char>>)
  {
    forall r, c :: 0 <= r < |grid| && 0 <= c < |grid[r]| ==> 'a' <= grid[r][c] <= 'z'
  }

  /** Distinct cells of a rows × cols board, each next to the one before. */
  predicate Route(path: seq<Cell>, rows: int, cols: int)
  {
    && (forall k :: 0 <= k < |path| ==> 0 <= path[k].0 < rows && 0 <= path[k].1 < cols)
    && (forall k1, k2 :: 0 <= k1 < k2 < |path| ==> path[k1] != path[k2])
    && (forall k :: 1 <= k < |path| ==> Adjacent(path[k - 1], path[k]))
  }

  /** The letters along a path. */
  function Spelled(grid: seq<seq<char>>, path: seq<Cell>): (w: string)
    requires forall k :: 0 <= k < |path| ==> 0 <= path[k].0 < |grid| && 0 <= path[k].1 < |grid[path[k].0]|
    ensures |w| == |path| && forall k :: 0 <= k < |path| ==> w[k] == grid[path[k].0][path[k].1]
  {
    seq(|path|, k requires 0 <= k < |path| => grid[path[k].0][path[k].1])
  }

  /** w can be traced on the grid. */
  ghost predicate Traced(grid: seq<seq<char>>, w: string)
    requires Rect(grid, |grid|, if grid == [] then 0 else |grid[0]|)
  {
    exists path :: Route(path, |grid|, if grid == [] then 0 else |grid[0]|) && path != [] && Spelled(grid, path) == w
  }

  /** The cells of a path, as a set. */
  function Visited(path: seq<Cell>): set<Cell>
  {
    set k | 0 <= k < |path| :: path[k]
  }

  /** The cells of a rows × cols board. */
  function Cells(rows: int, cols: int): (r: set<Cell>)
    ensures forall x :: x in r <==> 0 <= x.0 < rows && 0 <= x.1 < cols
    decreases rows
  {
    if rows <= 0 then {} else Cells(rows - 1, cols) + RowCells(rows - 1, cols)
  }

  function RowCells(row: int, cols: int): (r: set<Cell>)
    ensures forall x :: x in r <==> x.0 == row && 0 <= x.1 < cols
    decreases cols
  {
    if cols <= 0 then {} else RowCells(row, cols - 1) + {(row, cols - 1)}
  }

  /** The board shows the grid with the cells of the path marked '*'. */
  ghost predicate Starred(board: array2<char>, grid: seq<seq<char>>, path: seq<Cell>)
    reads board
    requires Rect(grid, board.Length0, board.Length1)
  {
    forall r, c :: 0 <= r < board.Length0 && 0 <= c < board.Length1 ==>
      board[r, c] == if (r, c) in path then '*' else grid[r][c]
  }

  /** The contents of a board. */
  ghost function Snapshot(board: array2<char>): (g: seq<seq<char>>)
    reads board
    ensures Rect(g, board.Length0, board.Length1)
    ensures forall r, c :: 0 <= r < board.Length0 && 0 <= c < board.Length1 ==> g[r][c] == board[r, c]
  {
    seq(board.Length0, r requires 0 <= r < board.Length0 reads board =>
      seq(board.Length1, c requires 0 <= c < board.Length1 reads board => board[r, c]))
  }

  lemma SnapshotStarred(board: array2<char>)
    ensures Starred(board, Snapshot(board), [])
  {
  }

  lemma VisitedAppend(path: seq<Cell>, next: Cell)
    ensures Visited(path + [next]) == Visited(path) + {next}
  {
    var path' := path + [next];
    forall x | x in Visited(path') ensures x in Visited(path) + {next} {
      var k :| 0 <= k < |path'| && path'[k] == x;
      if k < |path| {
        assert path[k] == x;
      }
    }
    forall x | x in Visited(path) ensures x in Visited(path') {
      var k :| 0 <= k < |path| && path[k] == x;
      assert path'[k] == x;
    }
    assert path'[|path|] == next;
  }

  /** Stepping from the end of a route to a free cell next to it extends it. */
  lemma RouteExtend(path: seq<Cell>, rows: int, cols: int, next: Cell)
    requires Route(path, rows, cols) && (path != [] ==> Adjacent(path[|path| - 1], next))
    requires 0 <= next.0 < rows && 0 <= next.1 < cols && next !in path
    ensures Route(path + [next], rows, cols)
    ensures Cells(rows, cols) - Visited(path + [next]) < Cells(rows, cols) - Visited(path)
  {
    var path' := path + [next];
    forall k1, k2 | 0 <= k1 < k2 < |path'| ensures path'[k1] != path'[k2] {
      if k2 == |path| {
        assert path'[k1] == path[k1];
      }
    }
    forall k | 1 <= k < |path'| ensures Adjacent(path'[k - 1], path'[k]) {
      if k < |path| {
        assert path'[k - 1] == path[k - 1] && path'[k] == path[k];
      }
    }
    VisitedAppend(path, next);
    assert next !in Visited(path);
  }

  /** Marking the last cell of the path. */
  lemma StarStep(board: array2<char>, grid: seq<seq<char>>, path: seq<Cell>, i: int, j: int)
    requires Rect(grid, board.Length0, board.Length1) && 0 <= i < board.Length0 && 0 <= j < board.Length1
    requires forall r, c :: 0 <= r < board.Length0 && 0 <= c < board.Length1 && (r, c) != (i, j) ==>
               board[r, c] == if (r, c) in path then '*' else grid[r][c]
    requires board[i, j] == '*'
    ensures Starred(board, grid, path + [(i, j)])
  {
    forall r, c | 0 <= r < board.Length0 && 0 <= c < board.Length1
      ensures board[r, c] == if (r, c) in path + [(i, j)] then '*' else grid[r][c]
    {
      assert (r, c) in path + [(i, j)] <==> (r, c) in path || (r, c) == (i, j);
    }
  }

  /** Spelling one more cell. */
  lemma SpelledAppend(grid: seq<seq<char>>, path: seq<Cell>, x: Cell)
    requires forall k :: 0 <= k < |path| ==> 0 <= path[k].0 < |grid| && 0 <= path[k].1 < |grid[path[k].0]|
    requires 0 <= x.0 < |grid| && 0 <= x.1 < |grid[x.0]|
    ensures Spelled(grid, path + [x]) == Spelled(grid, path) + [grid[x.0][x.1]]
  {
    var path' := path + [x];
    assert forall k :: 0 <= k < |path| ==> path'[k] == path[k];
  }

  /** The node under the next letter spells one letter more. */
  lemma ChildSpelling(t: TrieNode, node: int, c: char)
    requires t.Valid() && 0 <= node < |t.links| && 'a' <= c <= 'z' && t.links[node][Slot(c)] != Null
    ensures 0 <= t.links[node][Slot(c)] < |t.links|
    ensures t.spelling[t.links[node][Slot(c)]] == t.spelling[node] + [c]
  {
    var child := t.links[node][Slot(c)];
    assert t.parentOf[child] == node && t.slotOf[child] == Slot(c);
  }

  /** Which of the four moves of `dfs` (up, left, down, right) goes from a to b. */
  function Toward(a: Cell, b: Cell): (d: int)
    ensures 0 <= d < 4
    ensures Adjacent(a, b) ==> b == (a.0 + [-1, 0, 1, 0][d], a.1 + [0, -1, 0, 1][d])
  {
    if b == (a.0 - 1, a.1) then 0
    else if b == (a.0, a.1 - 1) then 1
    else if b == (a.0 + 1, a.1) then 2
    else 3
  }

  /** A word of the trie goes on below any node spelling a proper prefix of it. */
  lemma OnWord(t: TrieNode, node: int, w: string)
    requires t.Valid() && 0 <= node < |t.links| && Lower(w) && t.spelling[node] < w
    ensures w in t.Words() ==> t.links[node][Slot(w[|t.spelling[node]|])] != Null
  {
    NextOnWord(t.links, t.eow, t.parentOf, t.slotOf, t.spelling, node, w);
  }

  /** q is a way to go on from `path`: it starts at `cell` and, after
      `path`, gives distinct adjacent cells of the board. */
  ghost predicate Continues(n: int, m: int, path: seq<Cell>, q: seq<Cell>, cell: Cell)
  {
    q != [] && q[0] == cell && Route(path + q, n, m)
  }

  /** Going on along q from `path` spells a word of `words`. */
  ghost predicate Spells(grid: seq<seq<char>>, n: int, m: int, path: seq<Cell>, q: seq<Cell>, cell: Cell, words: set<string>)
    requires Rect(grid, n, m)
  {
    Continues(n, m, path, q, cell) && Spelled(grid, path + q) in words
  }

  /** Every word of `words` spelled by going on from `path` through `cell`
      is in `output`. */
  ghost predicate Reported(grid: seq<seq<char>>, n: int, m: int, path: seq<Cell>, cell: Cell, words: set<string>, output: set<string>)
    requires Rect(grid, n, m)
  {
    forall q {:trigger Spells(grid, n, m, path, q, cell, words)} :: Spells(grid, n, m, path, q, cell, words) ==> Spelled(grid, path + q) in output
  }

  /** The same, for the ways on whose second cell is one of the first d
      moves of `dfs` from `cell`. */
  ghost predicate ReportedVia(grid: seq<seq<char>>, n: int, m: int, path: seq<Cell>, cell: Cell, d: int, words: set<string>, output: set<string>)
    requires Rect(grid, n, m)
  {
    forall q {:trigger Spells(grid, n, m, path, q, cell, words)} :: Spells(grid, n, m, path, q, cell, words) && |q| >= 2 && Toward(cell, q[1]) < d ==> Spelled(grid, path + q) in output
  }

  /** The same, for the ways on whose second cell is `next`. */
  ghost predicate ReportedNext(grid: seq<seq<char>>, n: int, m: int, path: seq<Cell>, cell: Cell, next: Cell, words: set<string>, output: set<string>)
    requires Rect(grid, n, m)
  {
    forall q {:trigger Spells(grid, n, m, path, q, cell, words)} :: Spells(grid, n, m, path, q, cell, words) && |q| >= 2 && q[1] == next ==> Spelled(grid, path + q) in output
  }

  /** Every word of `words` traced from a cell before (i, j), row by row, is
      in `output`. */
  ghost predicate FoundBefore(grid: seq<seq<char>>, n: int, m: int, i: int, j: int, words: set<string>, output: set<string>)
    requires Rect(grid, n, m)
  {
    forall q: seq<Cell> :: q != [] && Route(q, n, m) && (q[0].0 < i || (q[0].0 == i && q[0].1 < j)) && Spelled(grid, q) in words ==>
      Spelled(grid, q) in output
  }

  /** The cell after the first of a continuation is on the board, off the
      path and next to the first. */
  lemma SecondFree(n: int, m: int, path: seq<Cell>, q: seq<Cell>, cell: Cell)
    requires Continues(n, m, path, q, cell) && |q| >= 2
    ensures 0 <= q[1].0 < n && 0 <= q[1].1 < m && q[1] !in path + [cell]
    ensures Adjacent(cell, q[1])
  {
    var p := path + q;
    assert p[|path|] == cell && p[|path| + 1] == q[1];
    forall k | 0 <= k < |path| + 1 ensures (path + [cell])[k] != q[1] {
      assert (path + [cell])[k] == p[k];
    }
  }

  /** The word spelled along path + q goes on from the word of path with the
      letter of q's first cell; it is lower-case on a board of letters. */
  lemma SpelledPrefix(grid: seq<seq<char>>, n: int, m: int, path: seq<Cell>, q: seq<Cell>, cell: Cell)
    requires Rect(grid, n, m) && Letters(grid) && Route(path, n, m) && Continues(n, m, path, q, cell)
    ensures 0 <= cell.0 < n && 0 <= cell.1 < m
    ensures Lower(Spelled(grid, path + q))
    ensures Spelled(grid, path) < Spelled(grid, path + q)
    ensures Spelled(grid, path + q)[|path|] == grid[cell.0][cell.1]
  {
    var p := path + q;
    var w := Spelled(grid, p);
    assert p[|path|] == cell;
    assert forall k :: 0 <= k < |path| ==> p[k] == path[k];
    assert w[..|path|] == Spelled(grid, path);
  }

  /** No word goes on from `path` through (i, j) when the trie node of
      `path` has no child under the letter of (i, j). */
  lemma DeadEnd(t: TrieNode, grid: seq<seq<char>>, n: int, m: int, path: seq<Cell>, i: int, j: int, node: int, output: set<string>)
    requires t.Valid() && Rect(grid, n, m) && Letters(grid) && Route(path, n, m)
    requires 0 <= node < |t.links| && t.spelling[node] == Spelled(grid, path)
    requires 0 <= i < n && 0 <= j < m && t.links[node][Slot(grid[i][j])] == Null
    ensures Reported(grid, n, m, path, (i, j), t.Words(), output)
  {
    forall q | Continues(n, m, path, q, (i, j)) ensures Spelled(grid, path + q) !in t.Words() {
      SpelledPrefix(grid, n, m, path, q, (i, j));
      OnWord(t, node, Spelled(grid, path + q));
    }
  }

  /** What is reported from (row, col), with (i, j) added to the path,
      covers the ways on from (i, j) through (row, col). */
  lemma Deeper(grid: seq<seq<char>>, n: int, m: int, path: seq<Cell>, i: int, j: int, row: int, col: int, words: set<string>, output: set<string>)
    requires Rect(grid, n, m) && Reported(grid, n, m, path + [(i, j)], (row, col), words, output)
    ensures ReportedNext(grid, n, m, path, (i, j), (row, col), words, output)
  {
    forall q | Spells(grid, n, m, path, q, (i, j), words) && |q| >= 2 && q[1] == (row, col)
      ensures Spelled(grid, path + q) in output
    {
      assert q == [q[0]] + q[1..];
      assert (path + [(i, j)]) + q[1..] == path + q;
      assert Spells(grid, n, m, path + [(i, j)], q[1..], (row, col), words);
    }
  }

  /** No way on goes through a cell off the board or on the path. */
  lemma Blocked(grid: seq<seq<char>>, n: int, m: int, path: seq<Cell>, i: int, j: int, row: int, col: int, words: set<string>, output: set<string>)
    requires Rect(grid, n, m)
    requires !(0 <= row < n && 0 <= col < m) || (row, col) in path
    ensures ReportedNext(grid, n, m, path, (i, j), (row, col), words, output)
  {
    forall q | Continues(n, m, path, q, (i, j)) && |q| >= 2 ensures q[1] != (row, col) {
      SecondFree(n, m, path, q, (i, j));
    }
  }

  /** One more move of `dfs` covered. */
  lemma Neighbour(i: int, j: int, dr: seq<int>, dc: seq<int>, d: int)
    requires 0 <= d < 4 && dr == [-1, 0, 1, 0] && dc == [0, -1, 0, 1]
    ensures Adjacent((i, j), (i + dr[d], j + dc[d]))
  {
  }

  lemma ViaStep(grid: seq<seq<char>>, n: int, m: int, path: seq<Cell>, i: int, j: int, dr: seq<int>, dc: seq<int>, d: int,
                words: set<string>, out0: set<string>, out1: set<string>)
    requires Rect(grid, n, m) && 0 <= d < 4 && dr == [-1, 0, 1, 0] && dc == [0, -1, 0, 1]
    requires ReportedVia(grid, n, m, path, (i, j), d, words, out0) && out0 <= out1
    requires ReportedNext(grid, n, m, path, (i, j), (i + dr[d], j + dc[d]), words, out1)
    ensures ReportedVia(grid, n, m, path, (i, j), d + 1, words, out1)
  {
    forall q | Spells(grid, n, m, path, q, (i, j), words) && |q| >= 2 && Toward((i, j), q[1]) < d + 1
      ensures Spelled(grid, path + q) in out1
    {
      SecondFree(n, m, path, q, (i, j));
    }
  }

  /** The word ending at (i, j) and the ways on through all four moves are
      all the ways on. */
  lemma Assemble(grid: seq<seq<char>>, n: int, m: int, path: seq<Cell>, i: int, j: int, words: set<string>, output: set<string>)
    requires Rect(grid, n, m) && Route(path + [(i, j)], n, m)
    requires ReportedVia(grid, n, m, path, (i, j), 4, words, output)
    requires Spelled(grid, path + [(i, j)]) in words ==> Spelled(grid, path + [(i, j)]) in output
    ensures Reported(grid, n, m, path, (i, j), words, output)
  {
    forall q | Spells(grid, n, m, path, q, (i, j), words) ensures Spelled(grid, path + q) in output {
      if |q| == 1 {
        assert q == [(i, j)];
      }
    }
  }

  /** The search from (i, j) moves `findWords` one cell on. */
  lemma RowStep(grid: seq<seq<char>>, n: int, m: int, i: int, j: int, words: set<string>, out0: set<string>, out1: set<string>)
    requires Rect(grid, n, m) && FoundBefore(grid, n, m, i, j, words, out0) && out0 <= out1
    requires Reported(grid, n, m, [], (i, j), words, out1)
    ensures FoundBefore(grid, n, m, i, j + 1, words, out1)
  {
    forall q: seq<Cell> | q != [] && Route(q, n, m) && (q[0].0 < i || (q[0].0 == i && q[0].1 < j + 1)) && Spelled(grid, q) in words
      ensures Spelled(grid, q) in out1
    {
      if q[0] == (i, j) {
        FromCell(grid, n, m, q, (i, j), words, out1);
      }
    }
  }

  /** A route starting at the cell is a way on from the empty path. */
  lemma FromCell(grid: seq<seq<char>>, n: int, m: int, q: seq<Cell>, cell: Cell, words: set<string>, output: set<string>)
    requires Rect(grid, n, m) && Reported(grid, n, m, [], cell, words, output)
    requires q != [] && q[0] == cell && Route(q, n, m) && Spelled(grid, q) in words
    ensures Spelled(grid, q) in output
  {
    assert [] + q == q;
    assert Spells(grid, n, m, [], q, cell, words);
  }

  /** A finished row. */
  lemma RowDone(grid: seq<seq<char>>, n: int, m: int, i: int, words: set<string>, output: set<string>)
    requires Rect(grid, n, m) && FoundBefore(grid, n, m, i, m, words, output)
    ensures FoundBefore(grid, n, m, i + 1, 0, words, output)
  {
    forall q: seq<Cell> | q != [] && Route(q, n, m) && q[0].0 < i + 1 && Spelled(grid, q) in words
      ensures Spelled(grid, q) in output
    {
      assert 0 <= q[0].1 < m;
    }
  }

  /** Once every row is searched, every traced word of `words` is reported. */
  lemma AllRows(grid: seq<seq<char>>, words: set<string>, output: set<string>, w: string)
    requires |grid| >= 1 && Rect(grid, |grid|, |grid[0]|)
    requires FoundBefore(grid, |grid|, |grid[0]|, |grid|, 0, words, output)
    requires w in words && Traced(grid, w)
    ensures w in output
  {
    var q: seq<Cell> :| Route(q, |grid|, |grid[0]|) && q != [] && Spelled(grid, q) == w;
    assert q[0].0 < |grid|;
  }

  class Solution {
    var output: set<string>
    var trie: TrieNode

    constructor ()
      ensures output == {} && trie.Valid() && trie.Words() == {}
    {
      output := {};
      trie := new TrieNode();
    }

    method Insert(s: string)
      requires trie.Valid() && Lower(s)
      modifies trie
      ensures trie.Valid() && trie.Words() == old(trie.Words()) + {s}
    {
      trie.Insert(s);
    }

    method Search(word: string) returns (b: bool)
      requires trie.Valid() && Lower(word)
      ensures b <==> word in trie.Words()
    {
      b := trie.Search(word);
    }

    method Traverse(word: string) returns (n: int)
      requires trie.Valid() && Lower(word)
      ensures n == Reach(trie.links, 0, word)
      ensures n != Null ==> 0 <= n < |trie.links| && trie.spelling[n] == word
    {
      n := trie.Traverse(word);
    }

    /** Puts `words` in a fresh trie and searches from every cell. Words
        found by earlier calls stay in `output`. */
    method FindWords(board: array2<char>, words: seq<string>) returns (out: seq<string>)
      requires board.Length0 >= 1
      requires forall r, c :: 0 <= r < board.Length0 && 0 <= c < board.Length1 ==> 'a' <= board[r, c] <= 'z'
      requires forall k :: 0 <= k < |words| ==> Lower(words[k])
      modifies this, board
      ensures trie.Valid() && trie.Words() == set k | 0 <= k < |words| :: words[k]
      ensures forall r, c :: 0 <= r < board.Length0 && 0 <= c < board.Length1 ==> board[r, c] == old(board[r, c])
      ensures old(output) <= output
      ensures forall w :: w in output && w !in old(output) ==> w in words && Traced(Snapshot(board), w)
      ensures forall w :: w in words && Traced(Snapshot(board), w) ==> w in output
      ensures (forall w :: w in out <==> w in output) && forall k1, k2 :: 0 <= k1 < k2 < |out| ==> out[k1] != out[k2]
    {
      ghost var grid := Snapshot(board);
      trie := new TrieNode();
      InsertAll(words);
      ghost var found := trie.Words();
      var n := board.Length0;
      var m := board.Length1;
      var i := 0;
      while i < n
        invariant 0 <= i <= n
        invariant trie.Valid() && trie.Words() == found && Starred(board, grid, [])
        invariant old(output) <= output
        invariant forall w :: w in output && w !in old(output) ==> w in found && Traced(grid, w)
        invariant FoundBefore(grid, n, m, i, 0, found, output)
      {
        SearchRow(board, i, n, m, grid);
        i := i + 1;
      }
      assert grid == Snapshot(board) by {
        forall r | 0 <= r < n ensures grid[r] == Snapshot(board)[r] { }
      }
      forall w | w in words && Traced(grid, w) ensures w in output {
        AllRows(grid, found, output, w);
      }
      out := ListOf(output);
    }

    /** The first loop of `findWords`: every word goes into the trie. */
    method InsertAll(words: seq<string>)
      requires trie.Valid() && trie.Words() == {}
      requires forall k :: 0 <= k < |words| ==> Lower(words[k])
      modifies trie
      ensures trie.Valid() && trie.Words() == set k | 0 <= k < |words| :: words[k]
    {
      var t := 0;
      while t < |words|
        invariant 0 <= t <= |words|
        invariant trie.Valid() && trie.Words() == set k | 0 <= k < t :: words[k]
      {
        Insert(words[t]);
        t := t + 1;
      }
    }

    /** The inner loop of `findWords`: a search from every cell of row i. */
    method SearchRow(board: array2<char>, i: int, n: int, m: int, ghost grid: seq<seq<char>>)
      requires trie.Valid() && n == board.Length0 && m == board.Length1 && 0 <= i < n
      requires Rect(grid, n, m) && Letters(grid) && Starred(board, grid, [])
      requires FoundBefore(grid, n, m, i, 0, trie.Words(), output)
      modifies this, board
      ensures trie == old(trie) && Starred(board, grid, [])
      ensures old(output) <= output
      ensures forall w :: w in output && w !in old(output) ==> w in trie.Words() && Traced(grid, w)
      ensures FoundBefore(grid, n, m, i + 1, 0, trie.Words(), output)
    {
      var j := 0;
      while j < m
        invariant 0 <= j <= m
        invariant trie == old(trie) && Starred(board, grid, [])
        invariant old(output) <= output
        invariant forall w :: w in output && w !in old(output) ==> w in trie.Words() && Traced(grid, w)
        invariant FoundBefore(grid, n, m, i, j, trie.Words(), output)
      {
        assert Route([(i, j)], n, m);
        ghost var before := output;
        Dfs(board, i, j, n, m, 0, [board[i, j]], grid, []);
        RowStep(grid, n, m, i, j, trie.Words(), before, output);
        j := j + 1;
      }
      RowDone(grid, n, m, i, trie.Words(), output);
    }

    /** Searches from cell (i, j), reached from `node` of the trie along the
        marked path; `s` is the word of the path including (i, j). */
    method Dfs(board: array2<char>, i: int, j: int, n: int, m: int, node: int, s: string,
               ghost grid: seq<seq<char>>, ghost path: seq<Cell>)
      requires trie.Valid() && n == board.Length0 && m == board.Length1
      requires Rect(grid, n, m) && Letters(grid) && Route(path, n, m) && Starred(board, grid, path)
      requires 0 <= i < n && 0 <= j < m && (i, j) !in path && (path != [] ==> Adjacent(path[|path| - 1], (i, j)))
      requires 0 <= node < |trie.links| && trie.spelling[node] == Spelled(grid, path)
      requires s == Spelled(grid, path) + [grid[i][j]]
      modifies this, board
      ensures trie == old(trie) && Starred(board, grid, path)
      ensures old(output) <= output
      ensures forall w :: w in output && w !in old(output) ==> w in trie.Words() && Traced(grid, w)
      ensures Reported(grid, n, m, path, (i, j), trie.Words(), output)
      decreases Cells(n, m) - Visited(path), 3
    {
      var c := board[i, j];
      assert c == grid[i][j];
      if c == '*' || trie.links[node][Slot(c)] == Null {
        DeadEnd(trie, grid, n, m, path, i, j, node, output);
        return;
      }
      var child := trie.links[node][Slot(c)];
      ChildSpelling(trie, node, c);
      ghost var here := path + [(i, j)];
      RouteExtend(path, n, m, (i, j));
      SpelledAppend(grid, path, (i, j));
      EndOfWord(trie.links, trie.eow, trie.parentOf, trie.slotOf, trie.spelling, child);
      if trie.eow[child] {
        assert Traced(grid, s) by {
          assert Route(here, |grid|, |grid[0]|) && here != [] && Spelled(grid, here) == s;
        }
        output := output + {s};
      }
      Moves(board, i, j, n, m, child, s, grid, path, trie.Words());
      Assemble(grid, n, m, path, i, j, trie.Words(), output);
    }

    /** The four moves of `dfs` from (i, j): up, left, down, right. */
    method Moves(board: array2<char>, i: int, j: int, n: int, m: int, child: int, s: string,
                 ghost grid: seq<seq<char>>, ghost path: seq<Cell>, ghost words: set<string>)
      requires trie.Valid() && words == trie.Words() && n == board.Length0 && m == board.Length1
      requires Rect(grid, n, m) && Letters(grid) && Route(path + [(i, j)], n, m) && Starred(board, grid, path)
      requires 0 <= i < n && 0 <= j < m && (i, j) !in path
      requires Cells(n, m) - Visited(path + [(i, j)]) < Cells(n, m) - Visited(path)
      requires 0 <= child < |trie.links| && trie.spelling[child] == Spelled(grid, path + [(i, j)]) == s
      modifies this, board
      ensures trie == old(trie) && Starred(board, grid, path)
      ensures old(output) <= output
      ensures forall w :: w in output && w !in old(output) ==> w in words && Traced(grid, w)
      ensures ReportedVia(grid, n, m, path, (i, j), 4, words, output)
      decreases Cells(n, m) - Visited(path), 2
    {
      var dr := [-1, 0, 1, 0];
      var dc := [0, -1, 0, 1];
      var k := 0;
      while k < 4
        invariant 0 <= k <= 4
        invariant trie == old(trie) && Starred(board, grid, path)
        invariant old(output) <= output
        invariant forall w :: w in output && w !in old(output) ==> w in words && Traced(grid, w)
        invariant ReportedVia(grid, n, m, path, (i, j), k, words, output)
      {
        Move(board, i, j, dr, dc, k, n, m, child, s, grid, path, words);
        k := k + 1;
      }
    }

    /** Iteration k of the loop of `dfs`: the move by (r[k], c[k]). */
    method Move(board: array2<char>, i: int, j: int, dr: seq<int>, dc: seq<int>, k: int, n: int, m: int, child: int, s: string,
                ghost grid: seq<seq<char>>, ghost path: seq<Cell>, ghost words: set<string>)
      requires dr == [-1, 0, 1, 0] && dc == [0, -1, 0, 1] && 0 <= k < 4
      requires trie.Valid() && words == trie.Words() && n == board.Length0 && m == board.Length1
      requires Rect(grid, n, m) && Letters(grid) && Route(path + [(i, j)], n, m) && Starred(board, grid, path)
      requires 0 <= i < n && 0 <= j < m && (i, j) !in path
      requires Cells(n, m) - Visited(path + [(i, j)]) < Cells(n, m) - Visited(path)
      requires 0 <= child < |trie.links| && trie.spelling[child] == Spelled(grid, path + [(i, j)]) == s
      requires ReportedVia(grid, n, m, path, (i, j), k, words, output)
      modifies this, board
      ensures trie == old(trie) && Starred(board, grid, path)
      ensures old(output) <= output
      ensures forall w :: w in output && w !in old(output) ==> w in words && Traced(grid, w)
      ensures ReportedVia(grid, n, m, path, (i, j), k + 1, words, output)
      decreases Cells(n, m) - Visited(path), 1
    {
      var row, col := i + dr[k], j + dc[k];
      Neighbour(i, j, dr, dc, k);
      Step(board, i, j, row, col, n, m, child, s, grid, path, words);
      ViaStep(grid, n, m, path, i, j, dr, dc, k, words, old(output), output);
    }

    /** One of the four moves of `dfs`: when (row, col) is on the board and
        free, marks (i, j), searches from (row, col) if the trie goes on with
        its letter, and restores (i, j). */
    method Step(board: array2<char>, i: int, j: int, row: int, col: int, n: int, m: int, child: int, s: string,
                ghost grid: seq<seq<char>>, ghost path: seq<Cell>, ghost words: set<string>)
      requires trie.Valid() && words == trie.Words() && n == board.Length0 && m == board.Length1
      requires Rect(grid, n, m) && Letters(grid) && Route(path + [(i, j)], n, m) && Starred(board, grid, path)
      requires 0 <= i < n && 0 <= j < m && (i, j) !in path
      requires Adjacent((i, j), (row, col))
      requires Cells(n, m) - Visited(path + [(i, j)]) < Cells(n, m) - Visited(path)
      requires 0 <= child < |trie.links| && trie.spelling[child] == Spelled(grid, path + [(i, j)]) == s
      modifies this, board
      ensures trie == old(trie) && Starred(board, grid, path)
      ensures old(output) <= output
      ensures forall w :: w in output && w !in old(output) ==> w in words && Traced(grid, w)
      ensures ReportedNext(grid, n, m, path, (i, j), (row, col), words, output)
      decreases Cells(n, m) - Visited(path), 0
    {
      ghost var here := path + [(i, j)];
      if 0 <= row < n && 0 <= col < m && board[row, col] != '*' {
        assert (row, col) !in here by {
          assert here[|path|] == (i, j);
        }
        var ch := board[i, j];
        board[i, j] := '*';
        StarStep(board, grid, path, i, j);
        var next := board[row, col];
        if trie.links[child][Slot(next)] != Null {
          assert here[|here| - 1] == (i, j);
          Dfs(board, row, col, n, m, child, s + [next], grid, here);
        } else {
          DeadEnd(trie, grid, n, m, here, row, col, child, output);
        }
        Deeper(grid, n, m, path, i, j, row, col, words, output);
        board[i, j] := ch;
      } else {
        assert !(0 <= row < n && 0 <= col < m) || (row, col) in path;
        Blocked(grid, n, m, path, i, j, row, col, words, output);
      }
    }
  }

  /** `new ArrayList<>(output)`: the words of the set, each once. */
  method ListOf(output: set<string>) returns (out: seq<string>)
    ensures (forall w :: w in out <==> w in output) && forall k1, k2 :: 0 <= k1 < k2 < |out| ==> out[k1] != out[k2]
  {
    out := [];
    var rest := output;
    while rest != {}
      invariant rest <= output
      invariant forall w :: w in out <==> w in output && w !in rest
      invariant forall k1, k2 :: 0 <= k1 < k2 < |out| ==> out[k1] != out[k2]
      decreases |rest|
    {
      var w :| w in rest;
      out := out + [w];
      rest := rest - {w};
    }
  }
}
