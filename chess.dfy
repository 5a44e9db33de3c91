/** The board coordinates of the chess model: a square is a file letter
    'A' to 'H' and a rank 1 to 8, and distanceFrom measures how many ranks
    and how many files apart two squares are. */
module Chess {

  /** The file letters, in board order. */
  const Files: string := "ABCDEFGH"

  /** A file: one of the letters 'A' to 'H'. */
  type File = c: char | 'A' <= c <= 'H' witness 'A'

  /** A rank: one of the numbers 1 to 8. */
  type Rank = r: int | 1 <= r <= 8 witness 1

  /** The object distanceFrom returns. */
  datatype Distance = Distance(rank: int, file: int)

  /** A square of the board. Its fields are set by the constructor and
      never changed afterwards. */
  datatype Position = Position(file: File, rank: Rank)
  {
    /** The absolute difference of the ranks, and the absolute difference
        of the character codes of the file letters. */
    function DistanceFrom(position: Position): (d: Distance)
      ensures 0 <= d.rank <= 7 && 0 <= d.file <= 7
      ensures d.rank == 0 <==> rank == position.rank
      ensures d.file == 0 <==> file == position.file
      ensures d.rank == rank - position.rank || d.rank == position.rank - rank
    {
      Distance(Abs(rank - position.rank), Abs(file as int - position.file as int))
    }
  }

  /** `Math.abs` on integers. */
  function Abs(x: int): (y: nat)
    ensures y == x || y == -x
  {
    if x < 0 then -x else x
  }

  /** The position of c in s, or |s| when c does not occur. */
  function IndexOf(s: string, c: char): (k: nat)
    ensures k <= |s|
    ensures k < |s| ==> s[k] == c
    ensures forall j :: 0 <= j < k ==> s[j] != c
  {
    if s == [] then 0 else if s[0] == c then 0 else 1 + IndexOf(s[1..], c)
  }

  /** The column of a file on the board, counted from 0 for 'A'. */
  function Column(f: File): nat {
    IndexOf(Files, f)
  }

  /** The column of a file is how far its letter is from 'A'. */
  lemma ColumnIsLetterOffset(f: File)
    ensures Column(f) == f as int - 'A' as int
  {
    assert Files[f as int - 'A' as int] == f;
    assert forall j :: 0 <= j < |Files| ==> Files[j] as int == 'A' as int + j;
  }

  /** The distance does not depend on which square it is measured from. */
  lemma DistanceSymmetric(p: Position, q: Position)
    ensures p.DistanceFrom(q) == q.DistanceFrom(p)
  {
  }

  /** Two squares are zero ranks and zero files apart exactly when they are
      the same square. */
  lemma ZeroDistanceIsSameSquare(p: Position, q: Position)
    ensures p.DistanceFrom(q) == Distance(0, 0) <==> p == q
  {
  }

  /** Comparing character codes counts the columns between two files: the
      file distance is the difference of the board columns. */
  lemma FileDistanceIsColumnDifference(p: Position, q: Position)
    ensures p.DistanceFrom(q).file == Abs(Column(p.file) - Column(q.file))
  {
    ColumnIsLetterOffset(p.file);
    ColumnIsLetterOffset(q.file);
  }
}
