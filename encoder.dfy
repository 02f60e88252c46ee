/** The board encoder (bb2array): a chess board becomes 64 signed bytes, one per
    square in row-major order, optionally mirrored top-to-bottom with the colours
    swapped so that the side to move is always encoded as one and the same colour. */
module Encoder {

  /** numpy's int8, the element type of the encoded arrays. */
  newtype int8 = v: int | -128 <= v < 128

  /** A board as the rules engine exposes it: a piece-type code per square
      (0 for an empty square, 1..6 for pawn..king), whether black holds each
      square, and the side to move as the library's raw colour value. */
  datatype Board = Board(pieces: seq<int>, blackOccupied: seq<bool>, turn: int)

  predicate ValidBoard(b: Board) {
    && |b.pieces| == 64
    && |b.blackOccupied| == 64
    && forall s :: 0 <= s < 64 ==> 0 <= b.pieces[s] <= 6
  }

  /** The index a square lands on: row `s / 8` (mirrored to `7 - row` under
      `flip`) times 8, plus the unchanged column `s % 8`. */
  function Placement(s: nat, flip: bool): (t: nat)
    requires s < 64
    ensures t < 64
    ensures t % 8 == s % 8
    ensures t / 8 == if flip then 7 - s / 8 else s / 8
  {
    var row := if flip then 7 - s / 8 else s / 8;
    row * 8 + s % 8
  }

  /** The colour bit of an occupied square: 1 when black holds it, inverted under `flip`. */
  function ColourBit(b: Board, s: nat, flip: bool): (c: nat)
    requires ValidBoard(b) && s < 64
    ensures c <= 1
    ensures c == 1 <==> b.blackOccupied[s] != flip
  {
    var c := if b.blackOccupied[s] then 1 else 0;
    if flip then 1 - c else c
  }

  /** What square `s` contributes to the array: 0 when empty, otherwise
      `colour * 7 + piece`. */
  function Cell(b: Board, s: nat, flip: bool): (v: int8)
    requires ValidBoard(b) && s < 64
    ensures v == 0 <==> b.pieces[s] == 0
    ensures b.pieces[s] != 0 ==> v as int == ColourBit(b, s, flip) * 7 + b.pieces[s]
  {
    if b.pieces[s] == 0 then 0 else (ColourBit(b, s, flip) * 7 + b.pieces[s]) as int8
  }

  /** The encoded array, entry by entry: index `t` holds the cell of the one square
      whose placement is `t` (placement is its own inverse, see PlacementInvolution). */
  function Encode(b: Board, flip: bool): (r: seq<int8>)
    requires ValidBoard(b)
    ensures |r| == 64
  {
    seq(64, t requires 0 <= t < 64 => Cell(b, Placement(t, flip), flip))
  }

  /** Every entry is 0 or one of the two colour bands 1..6 and 8..13: never 7, never
      negative, never above 13. */
  lemma EncodeRange(b: Board, flip: bool)
    requires ValidBoard(b)
    ensures forall t :: 0 <= t < 64 ==> 0 <= Encode(b, flip)[t] <= 13 && Encode(b, flip)[t] != 7
  {
  }

  /** Placement is an involution on the 64 squares; hence a bijection, and two
      occupied squares never land on the same index. */
  lemma PlacementInvolution(s: nat, flip: bool)
    requires s < 64
    ensures Placement(Placement(s, flip), flip) == s
  {
  }

  lemma PlacementInjective(s1: nat, s2: nat, flip: bool)
    requires s1 < 64 && s2 < 64
    ensures Placement(s1, flip) == Placement(s2, flip) ==> s1 == s2
  {
  }

  /** Without `flip` every square stays where it is. */
  lemma PlacementIdentity(s: nat)
    requires s < 64
    ensures Placement(s, false) == s
  {
  }

  /** An entry is non-zero exactly when the square that lands on it is occupied,
      and then it lies in 1..6 for encoded colour 0 and in 8..13 for encoded colour 1. */
  lemma EncodeOccupancy(b: Board, flip: bool, t: nat)
    requires ValidBoard(b) && t < 64
    ensures var s := Placement(t, flip); var v := Encode(b, flip)[t];
      && (v != 0 <==> b.pieces[s] != 0)
      && (b.pieces[s] != 0 && ColourBit(b, s, flip) == 0 ==> 1 <= v <= 6 && v as int == b.pieces[s])
      && (b.pieces[s] != 0 && ColourBit(b, s, flip) == 1 ==> 8 <= v <= 13 && v as int == b.pieces[s] + 7)
  {
  }

  /** Seen from the squares: each occupied square `s` puts `colour * 7 + piece` at
      index `Placement(s, flip)`, and each empty square leaves its index 0. */
  lemma SquareLandsAtPlacement(b: Board, flip: bool, s: nat)
    requires ValidBoard(b) && s < 64
    ensures Encode(b, flip)[Placement(s, flip)] == Cell(b, s, flip)
  {
  }

  /** Exchanges the two colour bands: 1..6 and 8..13 trade places, 0 stays 0. */
  function SwapColour(v: int8): (w: int8)
    requires 0 <= v <= 13 && v != 7
    ensures 0 <= w <= 13 && w != 7
    ensures (w == 0) == (v == 0)
  {
    if v == 0 then 0 else if v <= 6 then v + 7 else v - 7
  }

  /** The flip law: the flipped array at the mirrored row holds the unflipped entry
      of the same column with its colour swapped. */
  lemma FlipLaw(b: Board, row: nat, col: nat)
    requires ValidBoard(b) && row < 8 && col < 8
    ensures Encode(b, true)[(7 - row) * 8 + col] == SwapColour(Encode(b, false)[row * 8 + col])
  {
  }

  /** The board with its ranks mirrored and the colours of all pieces swapped;
      empty squares stay unowned.
      The side to move is copied unchanged: a true colour swap would hand the move
      to the other side, but `Encode` never reads `turn`, so this does not matter. */
  function MirrorSwap(b: Board): (m: Board)
    requires ValidBoard(b)
    ensures ValidBoard(m)
  {
    Board(seq(64, s requires 0 <= s < 64 => b.pieces[Placement(s, true)]),
          seq(64, s requires 0 <= s < 64 =>
            b.pieces[Placement(s, true)] != 0 && !b.blackOccupied[Placement(s, true)]),
          b.turn)
  }

  /** Encoding with `flip` is encoding the mirrored, colour-swapped board without it. */
  lemma FlipIsMirrorSwap(b: Board)
    requires ValidBoard(b)
    ensures Encode(b, true) == Encode(MirrorSwap(b), false)
  {
  }

  /** bb2array: fill a zeroed array square by square. */
  method Bb2Array(b: Board, flip: bool) returns (x: array<int8>)
    requires ValidBoard(b)
    ensures x.Length == 64
    ensures x[..] == Encode(b, flip)
  {
    x := new int8[64](_ => 0);
    for pos := 0 to 64
      invariant forall t :: 0 <= t < 64 ==>
        x[t] == if Placement(t, flip) < pos then Encode(b, flip)[t] else 0
    {
      var piece := b.pieces[pos];
      if piece != 0 {
        var color := if b.blackOccupied[pos] then 1 else 0;
        var col := pos % 8;
        var row := pos / 8;
        if flip {
          row := 7 - row;
          color := 1 - color;
        }
        var code := color * 7 + piece;
        assert row * 8 + col == Placement(pos, flip);
        PlacementInvolution(pos, flip);
        forall t | 0 <= t < 64 && t != Placement(pos, flip)
          ensures Placement(t, flip) != pos
        {
          PlacementInvolution(t, flip);
        }
        x[row * 8 + col] := code as int8;
      } else {
        forall t | 0 <= t < 64 && Placement(t, flip) == pos
          ensures Encode(b, flip)[t] == 0
        {
        }
      }
    }
  }
}
