/**
 * Widening a block's line range over the comment lines directly before and
 * after it, so that annotations in leading and trailing comments count for
 * the block. Lines are numbered from 1; line `n` is `lines[n - 1]`.
 */
module Widen {
  import opened Text

  /**
   * A comment line: its first non-blank characters are "--". This is
   * `line.strip().startswith("--")`, as `IsCommentLineIsStrippedDashes` shows.
   */
  predicate IsCommentLine(line: string) {
    var j := SkipSpaces(line, 0);
    j + 2 <= |line| && line[j] == '-' && line[j + 1] == '-'
  }

  /** The comment test is the stripped line starting with "--". */
  lemma IsCommentLineIsStrippedDashes(line: string)
    ensures IsCommentLine(line) <==> StartsWith(Strip(line), "--")
  {
    StripStartsWith(line, "--");
    var l := LStrip(line);
    if |l| >= 2 {
      assert l[..2] == [l[0], l[1]];
    }
  }

  /** Line `l` of the buffer is a comment line. */
  predicate CommentAt(lines: seq<string>, l: int) {
    1 <= l <= |lines| && IsCommentLine(lines[l - 1])
  }

  /**
   * Where the walk from line `c` in direction `dir` (-1 up, +1 down) stops:
   * the last comment line of the run next to `c`, or `c` itself, never past
   * the first or last line of the buffer.
   */
  function Reach(lines: seq<string>, c: nat, dir: int): (r: nat)
    requires dir == -1 || dir == 1
    requires 1 <= c <= |lines|
    ensures 1 <= r <= |lines|
    ensures dir < 0 ==> r <= c
    ensures dir > 0 ==> c <= r
    decreases if dir < 0 then c else |lines| - c
  {
    var boundary := if dir < 0 then 1 else |lines|;
    if c == boundary then c
    else if !CommentAt(lines, c + dir) then c
    else Reach(lines, c + dir, dir)
  }

  /**
   * Upward, the walk never moves the start later, absorbs only comment
   * lines, and stops at line 1 or just below a line that is not a comment.
   */
  lemma {:induction false} ReachUp(lines: seq<string>, c: nat)
    requires 1 <= c <= |lines|
    ensures Reach(lines, c, -1) <= c
    ensures forall l :: Reach(lines, c, -1) <= l < c ==> CommentAt(lines, l)
    ensures Reach(lines, c, -1) == 1 || !CommentAt(lines, Reach(lines, c, -1) - 1)
    decreases c
  {
    if c != 1 && CommentAt(lines, c - 1) {
      ReachUp(lines, c - 1);
    }
  }

  /**
   * Downward, the walk never moves the end earlier, absorbs only comment
   * lines, and stops at the last line or just above a line that is not a comment.
   */
  lemma {:induction false} ReachDown(lines: seq<string>, c: nat)
    requires 1 <= c <= |lines|
    ensures c <= Reach(lines, c, 1)
    ensures forall l :: c < l <= Reach(lines, c, 1) ==> CommentAt(lines, l)
    ensures Reach(lines, c, 1) == |lines| || !CommentAt(lines, Reach(lines, c, 1) + 1)
    decreases |lines| - c
  {
    if c != |lines| && CommentAt(lines, c + 1) {
      ReachDown(lines, c + 1);
    }
  }

  /** A walk from where a walk stopped goes nowhere. */
  lemma ReachIdempotent(lines: seq<string>, c: nat, dir: int)
    requires dir == -1 || dir == 1
    requires 1 <= c <= |lines|
    ensures Reach(lines, Reach(lines, c, dir), dir) == Reach(lines, c, dir)
  {
    if dir < 0 { ReachUp(lines, c); } else { ReachDown(lines, c); }
  }

  /** The widened range, as a pair of line numbers. */
  function WidenedRange(lines: seq<string>, codestart: nat, codeend: nat): (nat, nat)
    requires 1 <= codestart <= |lines| && 1 <= codeend <= |lines|
  {
    (Reach(lines, codestart, -1), Reach(lines, codeend, 1))
  }

  /** Widening an already widened range changes nothing. */
  lemma WidenIdempotent(lines: seq<string>, codestart: nat, codeend: nat)
    requires 1 <= codestart <= |lines| && 1 <= codeend <= |lines|
    ensures var (s, e) := WidenedRange(lines, codestart, codeend);
            WidenedRange(lines, s, e) == (s, e)
  {
    ReachIdempotent(lines, codestart, -1);
    ReachIdempotent(lines, codeend, 1);
  }

  /** One step of the walk: it stops before a line that is not a comment, else goes on from there. */
  lemma ReachStep(lines: seq<string>, c: nat, dir: int)
    requires dir == -1 || dir == 1
    requires 1 <= c + dir <= |lines| && 1 <= c <= |lines|
    ensures IsCommentLine(lines[c + dir - 1]) ==> Reach(lines, c, dir) == Reach(lines, c + dir, dir)
    ensures !IsCommentLine(lines[c + dir - 1]) ==> Reach(lines, c, dir) == c
  {
  }

  /**
   * One direction of `_widen_withcomments`: from `doccursor`, step a line at
   * a time while the line reached is a comment line, remembering the last
   * one, and stop at `boundary`, the buffer's first or last line.
   */
  method WalkOverComments(lines: seq<string>, start: nat, dir: int, boundary: nat) returns (lastvalid: nat)
    requires dir == -1 || dir == 1
    requires 1 <= start <= |lines|
    requires boundary == if dir < 0 then 1 else |lines|
    ensures lastvalid == Reach(lines, start, dir)
  {
    var doccursor := start;
    lastvalid := doccursor;
    while true
      invariant 1 <= doccursor <= |lines| && lastvalid == doccursor
      invariant Reach(lines, lastvalid, dir) == Reach(lines, start, dir)
      decreases if dir < 0 then doccursor else |lines| - doccursor
    {
      if doccursor == boundary {
        break;
      }
      doccursor := doccursor + dir;
      var line := lines[doccursor - 1];
      var iscomment := IsCommentLine(line);
      ReachStep(lines, lastvalid, dir);
      if !iscomment {
        break;
      } else {
        lastvalid := doccursor;
      }
    }
  }

  /**
   * `_widen_withcomments`: widen the start upwards, then the end downwards,
   * each over the comment lines next to it.
   */
  method WidenWithComments(lines: seq<string>, codestart0: nat, codeend0: nat) returns (codestart: nat, codeend: nat)
    requires 1 <= codestart0 <= |lines| && 1 <= codeend0 <= |lines|
    ensures (codestart, codeend) == WidenedRange(lines, codestart0, codeend0)
  {
    codestart, codeend := codestart0, codeend0;
    var min, max := 1, |lines|;
    var dirs := [-1, 1];
    for i := 0 to 2
      invariant codestart == if i == 0 then codestart0 else Reach(lines, codestart0, -1)
      invariant codeend == if i < 2 then codeend0 else Reach(lines, codeend0, 1)
    {
      var dir := dirs[i];
      var lastvalid;
      if dir == -1 {
        lastvalid := WalkOverComments(lines, codestart, dir, min);
        codestart := lastvalid;
      } else {
        lastvalid := WalkOverComments(lines, codeend, dir, max);
        codeend := lastvalid;
      }
    }
  }
}
