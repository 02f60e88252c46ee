/** The dataset writer loop of read_all_games: five growable columns share one
    logical row counter `line` and one physical length `size`; the physical length
    grows as `2 * size + 1` and is trimmed to `line` at the end. */
module Writer {
  import opened Encoder
  import opened Sampler

  /** A growable column resized along axis 0: shrinking drops trailing rows, growing
      appends rows holding the fill value. */
  function Resized<T>(s: seq<T>, n: nat, fill: T): (r: seq<T>)
    ensures |r| == n
    ensures forall i :: 0 <= i < n && i < |s| ==> r[i] == s[i]
    ensures forall i :: |s| <= i < n ==> r[i] == fill
  {
    if n <= |s| then s[..n] else s + seq(n - |s|, _ => fill)
  }

  /** The fill row of the three position columns. */
  const ZeroRow: seq<int8> := seq(64, _ => 0)

  /** The lengths 0, 1, 3, 7, 15, ... (all binary digits one). */
  predicate IsCapacity(n: nat) {
    n == 0 || (n % 2 == 1 && IsCapacity(n / 2))
  }

  function Pow2(k: nat): (p: nat)
    ensures p >= 1
  {
    if k == 0 then 1 else 2 * Pow2(k - 1)
  }

  /** The lengths IsCapacity admits are exactly the numbers 2^k - 1. */
  lemma {:induction false} CapacityIsPow2Minus1(n: nat)
    ensures IsCapacity(n) <==> exists k: nat :: n + 1 == Pow2(k)
  {
    if n == 0 {
      assert n + 1 == Pow2(0);
    } else {
      CapacityIsPow2Minus1(n / 2);
      if IsCapacity(n) {
        var k: nat :| n / 2 + 1 == Pow2(k);
        assert n + 1 == Pow2(k + 1);
      }
      if exists k: nat :: n + 1 == Pow2(k) {
        var k: nat :| n + 1 == Pow2(k);
        assert k > 0;
        assert n / 2 + 1 == Pow2(k - 1);
      }
    }
  }

  /** One growth step keeps the length reachable. */
  lemma GrowthKeepsCapacity(size: nat)
    requires IsCapacity(size)
    ensures IsCapacity(2 * size + 1)
  {
    assert (2 * size + 1) / 2 == size;
  }

  /** What process_game returns for each game of the file, in read order. */
  function Results(games: seq<Game>, draws: seq<Draw>): (rs: seq<Option<TrainingTuple>>)
    requires |games| == |draws|
    requires forall i :: 0 <= i < |games| ==> ValidGame(games[i])
    ensures |rs| == |games|
  {
    seq(|games|, i requires 0 <= i < |games| => SampleOf(games[i], draws[i]))
  }

  /** The values of the first `n` results that are not None, in order: the rows the
      loop appends. */
  function Somes<T>(rs: seq<Option<T>>, n: nat): (vs: seq<T>)
    requires n <= |rs|
    ensures |vs| <= n
  {
    if n == 0 then []
    else match rs[n - 1]
      case None => Somes(rs, n - 1)
      case Some(v) => Somes(rs, n - 1) + [v]
  }

  /** The positions of the first `n` results that are not None, in increasing order. */
  function SomeIndices<T>(rs: seq<Option<T>>, n: nat): (idx: seq<nat>)
    requires n <= |rs|
    ensures forall j :: 0 <= j < |idx| ==> idx[j] < n
    ensures forall j, k :: 0 <= j < k < |idx| ==> idx[j] < idx[k]
    ensures forall i :: 0 <= i < n ==> (i in idx <==> rs[i].Some?)
  {
    if n == 0 then []
    else if rs[n - 1].Some? then SomeIndices(rs, n - 1) + [n - 1]
    else SomeIndices(rs, n - 1)
  }

  /** Value `j` is the payload of the `j`-th result that is not None: nothing is
      dropped, duplicated or reordered. */
  lemma {:induction false} SomesAreAtIndices<T>(rs: seq<Option<T>>, n: nat)
    requires n <= |rs|
    ensures |Somes(rs, n)| == |SomeIndices(rs, n)|
    ensures forall j :: 0 <= j < |SomeIndices(rs, n)| ==>
      rs[SomeIndices(rs, n)[j]] == Some(Somes(rs, n)[j])
  {
    if n > 0 {
      SomesAreAtIndices(rs, n - 1);
    }
  }

  /** The output file being written: the columns x, xr, xp (64 bytes per row), y and
      m, the physical length `size` they share and the logical row count `line`.
      Contents is the sequence of tuples written so far. */
  class DatasetWriter {
    var x: seq<seq<int8>>
    var xr: seq<seq<int8>>
    var xp: seq<seq<int8>>
    var y: seq<int>
    var m: seq<nat>
    var size: nat
    var line: nat
    ghost var Contents: seq<TrainingTuple>

    /** The five columns have one length and the position columns have shape (·, 64). */
    ghost predicate ColumnsValid()
      reads this
    {
      && |xr| == |x| && |xp| == |x| && |y| == |x| && |m| == |x|
      && forall i :: 0 <= i < |x| ==> |x[i]| == 64 && |xr[i]| == 64 && |xp[i]| == 64
    }

    /** Row `i` read back as a training tuple. */
    function Row(i: nat): TrainingTuple
      reads this
      requires ColumnsValid() && i < |x|
    {
      TrainingTuple(x[i], xp[i], xr[i], m[i], y[i])
    }

    /** The first `line` rows hold Contents, in order. */
    ghost predicate HoldsContents()
      reads this
    {
      && ColumnsValid()
      && |Contents| == line <= |x|
      && forall j :: 0 <= j < line ==> Row(j) == Contents[j]
    }

    /** Between appends: the columns are `size` rows long, `size` is one of
        0, 1, 3, 7, ... and at most `line + 1` of its rows are slack. */
    ghost predicate Valid()
      reads this
    {
      && HoldsContents()
      && |x| == size
      && line <= size <= 2 * line + 1
      && IsCapacity(size)
    }

    /** After the final trim: no slack row is left. */
    ghost predicate Closed()
      reads this
    {
      HoldsContents() && |x| == line
    }

    /** create_dataset for the five columns, each with initial length 0. */
    constructor ()
      ensures Valid() && size == 0 && line == 0 && Contents == []
    {
      x, xr, xp, y, m := [], [], [], [], [];
      size, line := 0, 0;
      Contents := [];
    }

    /** Resize every column to `n` rows. */
    method Resize(n: nat)
      requires ColumnsValid()
      modifies this`x, this`xr, this`xp, this`y, this`m
      ensures ColumnsValid() && |x| == n
      ensures x == Resized(old(x), n, ZeroRow) && xr == Resized(old(xr), n, ZeroRow)
      ensures xp == Resized(old(xp), n, ZeroRow)
      ensures y == Resized(old(y), n, 0) && m == Resized(old(m), n, 0)
    {
      x := Resized(x, n, ZeroRow);
      xr := Resized(xr, n, ZeroRow);
      xp := Resized(xp, n, ZeroRow);
      y := Resized(y, n, 0);
      m := Resized(m, n, 0);
    }

    /** Write tuple `t` into row `i` of every column; no other row changes. */
    method WriteRow(i: nat, t: TrainingTuple)
      requires ColumnsValid() && i < |x|
      requires |t.x| == 64 && |t.xParent| == 64 && |t.xRandom| == 64
      modifies this`x, this`xr, this`xp, this`y, this`m
      ensures ColumnsValid() && |x| == old(|x|)
      ensures x == old(x)[i := t.x] && xr == old(xr)[i := t.xRandom]
      ensures xp == old(xp)[i := t.xParent]
      ensures y == old(y)[i := t.y] && m == old(m)[i := t.movesLeft]
    {
      x := x[i := t.x];
      xr := xr[i := t.xRandom];
      xp := xp[i := t.xParent];
      y := y[i := t.y];
      m := m[i := t.movesLeft];
    }

    /** One accepted game: grow to `2 * size + 1` rows when `line + 1 >= size`,
        then write row `line` of every column and advance `line`. */
    method Append(t: TrainingTuple)
      requires Valid()
      requires |t.x| == 64 && |t.xParent| == 64 && |t.xRandom| == 64
      modifies this
      ensures Valid()
      ensures Contents == old(Contents) + [t] && line == old(line) + 1
      ensures size == if old(line) + 1 >= old(size) then 2 * old(size) + 1 else old(size)
      ensures old(line) < size && (old(line) > 0 ==> old(line) + 1 < size)
    {
      if line + 1 >= size {
        GrowthKeepsCapacity(size);
        size := 2 * size + 1;
        Resize(size);
      }
      WriteRow(line, t);
      line := line + 1;
      Contents := Contents + [t];
    }

    /** The final resize of every column to exactly `line` rows. */
    method Close()
      requires Valid()
      modifies this`x, this`xr, this`xp, this`y, this`m
      ensures Closed() && Contents == old(Contents) && line == old(line)
    {
      Resize(line);
    }
  }

  /** read_all_games over the games of one input file, with the random choices for
      each game: when it ends every column is exactly as long as the number of
      accepted games, and row `j` holds the `j`-th accepted tuple in read order. */
  method ReadAllGames(games: seq<Game>, draws: seq<Draw>) returns (w: DatasetWriter)
    requires |draws| == |games|
    requires forall i :: 0 <= i < |games| ==> ValidGame(games[i])
    ensures w.Closed()
    ensures w.Contents == Somes(Results(games, draws), |games|)
    ensures |w.x| == |Somes(Results(games, draws), |games|)|
  {
    w := new DatasetWriter();
    for i := 0 to |games|
      invariant w.Valid()
      invariant w.Contents == Somes(Results(games, draws), i)
    {
      var game := ProcessGame(games[i], draws[i]);
      assert game == Results(games, draws)[i];
      if game.None? {
        continue;
      }
      w.Append(game.value);
    }
    w.Close();
  }
}
