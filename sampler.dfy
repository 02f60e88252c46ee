/** The game sampler (process_game): validate one parsed game, walk its positions
    back from the end, pick one position that has a parent and build the training
    tuple from it, its parent and a random successor of the parent. */
module Sampler {
  import opened Encoder

  datatype Option<T> = None | Some(value: T)

  /** One node of the game tree's main line: its board and the boards reached from
      it by each of its legal moves, in the rules engine's enumeration order. */
  datatype Node = Node(board: Board, successors: seq<Board>)

  /** A parsed game: the declared result header, the nodes from the starting
      position (index 0) to the final one, and whether the rules engine reports the
      final board as game over. Node `i - 1` is the parent of node `i`. */
  datatype Game = Game(result: string, nodes: seq<Node>, finalIsGameOver: bool)

  /** The outcomes of the two uniform random choices made for one game: which
      candidate position, and which legal move of its parent. Each is reduced modulo
      the length of the list it chooses from. */
  datatype Draw = Draw(node: nat, move: nat)

  /** One entry of the walked chain: (moves_left, node, flip). */
  datatype Entry = Entry(movesLeft: nat, node: nat, flip: bool)

  /** (x, x_parent, x_random, moves_left, y). */
  datatype TrainingTuple = TrainingTuple(
    x: seq<int8>, xParent: seq<int8>, xRandom: seq<int8>, movesLeft: nat, y: int)

  /** A game always has its starting node, and every board is well formed. */
  predicate ValidGame(g: Game) {
    && |g.nodes| >= 1
    && (forall i :: 0 <= i < |g.nodes| ==> ValidBoard(g.nodes[i].board))
    && (forall i, j :: 0 <= i < |g.nodes| && 0 <= j < |g.nodes[i].successors| ==>
          ValidBoard(g.nodes[i].successors[j]))
  }

  /** What the rules engine guarantees of a real game: each move played is one of
      the parent's legal moves. */
  predicate Consistent(g: Game) {
    forall i :: 1 <= i < |g.nodes| ==> g.nodes[i].board in g.nodes[i - 1].successors
  }

  /** The result map `rm`: a white win is 1, a black win -1, a draw 0. */
  const ResultMap: map<string, int> := map["1-0" := 1, "0-1" := -1, "1/2-1/2" := 0]

  /** Looking the result header up in `rm`. */
  function ResultValue(r: string): (v: Option<int>)
    ensures v.Some? <==> r in ResultMap.Keys
    ensures v.Some? ==> -1 <= v.value <= 1
    ensures v == Some(1) <==> r == "1-0"
    ensures v == Some(-1) <==> r == "0-1"
    ensures v == Some(0) <==> r == "1/2-1/2"
  {
    if r in ResultMap then Some(ResultMap[r]) else None
  }

  /** flip: the raw side-to-move value of node `i`'s board is 0, the test
      `gn.board().turn == 0`. */
  predicate FlipAt(g: Game, i: nat)
    requires i < |g.nodes|
  {
    g.nodes[i].board.turn == 0
  }

  /** The chain walked from the final node back to the start: entry `k` is the
      node `k` plies before the end. */
  function Chain(g: Game): (c: seq<Entry>)
    ensures |c| == |g.nodes|
    ensures forall k :: 0 <= k < |c| ==>
      && c[k].movesLeft == k
      && c[k].node == |g.nodes| - 1 - k
      && c[k].flip == FlipAt(g, c[k].node)
  {
    seq(|g.nodes|, k requires 0 <= k < |g.nodes| =>
      Entry(k, |g.nodes| - 1 - k, FlipAt(g, |g.nodes| - 1 - k)))
  }

  /** The chain without its last entry, the starting node. */
  function Candidates(g: Game): (c: seq<Entry>)
    requires |g.nodes| >= 1
    ensures |c| == |g.nodes| - 1
    ensures forall k :: 0 <= k < |c| ==>
      && 1 <= c[k].node < |g.nodes|
      && c[k].movesLeft == k < |g.nodes| - 1
      && c[k].node + c[k].movesLeft == |g.nodes| - 1
      && c[k].flip == FlipAt(g, c[k].node)
  {
    Chain(g)[..|g.nodes| - 1]
  }

  /** What process_game returns for game `g` under the random choices `d`; None is
      a skipped game. */
  function SampleOf(g: Game, d: Draw): (r: Option<TrainingTuple>)
    requires ValidGame(g)
    ensures r.Some? ==> ResultValue(g.result).Some? && g.finalIsGameOver && |g.nodes| >= 2
    ensures r.Some? ==> r.value.movesLeft < |g.nodes| - 1
    ensures r.Some? ==> -1 <= r.value.y <= 1
    ensures r.Some? ==> |r.value.x| == 64 && |r.value.xParent| == 64 && |r.value.xRandom| == 64
  {
    var y := ResultValue(g.result);
    if y.None? || !g.finalIsGameOver then None
    else
      var cands := Candidates(g);
      if |cands| == 0 then None
      else
        var e := cands[d.node % |cands|];
        var parent := g.nodes[e.node - 1];
        if |parent.successors| == 0 then None
        else
          Some(TrainingTuple(
            Encode(g.nodes[e.node].board, e.flip),
            Encode(parent.board, !e.flip),
            Encode(parent.successors[d.move % |parent.successors|], e.flip),
            e.movesLeft,
            if e.flip then -y.value else y.value))
  }

  /** In a consistent game a tuple is produced exactly when the result code is
      recognised, the final position is game over and the game has at least one ply. */
  lemma SampleSomeIff(g: Game, d: Draw)
    requires ValidGame(g) && Consistent(g)
    ensures SampleOf(g, d).Some? <==>
      ResultValue(g.result).Some? && g.finalIsGameOver && |g.nodes| >= 2
  {
  }

  /** The tuple describes node `i = |nodes| - 1 - moves_left`, which is never the
      starting node: the current array is node `i` encoded with flip = `FlipAt`
      there, the parent array is node `i - 1` encoded with the opposite flag,
      the random array is one of the parent's successors encoded with flip, and
      the label is the result negated exactly when flip is set. */
  lemma SampledTuple(g: Game, d: Draw)
    requires ValidGame(g) && SampleOf(g, d).Some?
    ensures var s := SampleOf(g, d).value; var i := |g.nodes| - 1 - s.movesLeft;
      && 1 <= i < |g.nodes|
      && s.x == Encode(g.nodes[i].board, FlipAt(g, i))
      && s.xParent == Encode(g.nodes[i - 1].board, !FlipAt(g, i))
      && (exists succ :: succ in g.nodes[i - 1].successors &&
            ValidBoard(succ) && s.xRandom == Encode(succ, FlipAt(g, i)))
      && s.y == if FlipAt(g, i) then -ResultValue(g.result).value else ResultValue(g.result).value
  {
  }

  /** The label is 0 exactly for a draw, whatever the flip; otherwise it is +1 or -1. */
  lemma LabelZeroIffDraw(g: Game, d: Draw)
    requires ValidGame(g) && SampleOf(g, d).Some?
    ensures SampleOf(g, d).value.y in {-1, 0, 1}
    ensures SampleOf(g, d).value.y == 0 <==> g.result == "1/2-1/2"
  {
  }

  /** Every position but the start can be drawn, the final one included
      (moves_left = 0): choice `m` selects the node `m` plies before the end. */
  lemma EveryNonRootSampleable(g: Game, m: nat, move: nat)
    requires ValidGame(g) && Consistent(g)
    requires ResultValue(g.result).Some? && g.finalIsGameOver
    requires m < |g.nodes| - 1
    ensures SampleOf(g, Draw(m, move)).Some?
    ensures SampleOf(g, Draw(m, move)).value.movesLeft == m
  {
  }

  /** Every legal move of the sampled position's parent can be drawn: choice `j`
      selects successor `j`, encoded with the sampled node's flip. */
  lemma MoveChoiceSampleable(g: Game, m: nat, j: nat)
    requires ValidGame(g)
    requires ResultValue(g.result).Some? && g.finalIsGameOver
    requires m < |g.nodes| - 1
    requires j < |g.nodes[|g.nodes| - 2 - m].successors|
    ensures SampleOf(g, Draw(m, j)).Some?
    ensures SampleOf(g, Draw(m, j)).value.xRandom ==
      Encode(g.nodes[|g.nodes| - 2 - m].successors[j], FlipAt(g, |g.nodes| - 1 - m))
  {
    var cands := Candidates(g);
    assert m % |cands| == m;
    var e := cands[m];
    assert e.node == |g.nodes| - 1 - m && e.flip == FlipAt(g, e.node);
    var succ := g.nodes[e.node - 1].successors;
    assert j % |succ| == j;
    assert SampleOf(g, Draw(m, j)).value.xRandom == Encode(succ[j], e.flip);
  }

  /** process_game. */
  method ProcessGame(g: Game, d: Draw) returns (r: Option<TrainingTuple>)
    requires ValidGame(g)
    ensures r == SampleOf(g, d)
  {
    var res := ResultValue(g.result);
    if res.None? {
      return None;
    }
    var y := res.value;

    var gn: int := |g.nodes| - 1;
    if !g.finalIsGameOver {
      return None;
    }

    var gns: seq<Entry> := [];
    var movesLeft: nat := 0;
    while gn >= 0
      invariant -1 <= gn < |g.nodes|
      invariant movesLeft == |g.nodes| - 1 - gn
      invariant gns == Chain(g)[..movesLeft]
    {
      assert Chain(g)[movesLeft] == Entry(movesLeft, gn, FlipAt(g, gn));
      assert Chain(g)[..movesLeft + 1] == Chain(g)[..movesLeft] + [Chain(g)[movesLeft]];
      gns := gns + [Entry(movesLeft, gn, g.nodes[gn].board.turn == 0)];
      gn := gn - 1;
      movesLeft := movesLeft + 1;
    }
    assert gns == Chain(g);

    gns := gns[..|gns| - 1];
    assert gns == Candidates(g);
    if |gns| == 0 {
      return None;
    }
    var e := gns[d.node % |gns|];
    var flip := e.flip;
    assert 1 <= e.node < |g.nodes| && flip == FlipAt(g, e.node);

    var b := g.nodes[e.node].board;
    var x := Bb2Array(b, flip);
    var bParent := g.nodes[e.node - 1].board;
    var xParent := Bb2Array(bParent, !flip);
    if flip {
      y := -y;
    }

    var moves := g.nodes[e.node - 1].successors;
    if |moves| == 0 {
      return None;
    }
    var bRandom := moves[d.move % |moves|];
    var xRandom := Bb2Array(bRandom, flip);

    return Some(TrainingTuple(x[..], xParent[..], xRandom[..], e.movesLeft, y));
  }
}
