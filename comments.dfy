/**
 * Comment extraction: every line of a stretch of Ada source that contains
 * the comment marker "--" contributes the text after its first marker,
 * with the line number and the column where that text begins.
 */
module Comments {
  import opened Text

  /** One comment fragment: `text` follows the first "--" of line `line`. */
  datatype Comment = Comment(text: string, file: string, line: int, col: int)

  /** The comment marker "--" begins at index `k` of `line`. */
  predicate DashesAt(line: string, k: int) {
    0 <= k && k + 1 < |line| && line[k] == '-' && line[k + 1] == '-'
  }

  function FindDashesFrom(line: string, i: nat): (pos: int)
    requires i <= |line|
    ensures pos == -1 || (i <= pos && DashesAt(line, pos))
    ensures forall k :: i <= k && (pos == -1 || k < pos) ==> !DashesAt(line, k)
    decreases |line| - i
  {
    if i + 1 >= |line| then -1
    else if line[i] == '-' && line[i + 1] == '-' then i
    else FindDashesFrom(line, i + 1)
  }

  /** `line.find("--")`: the index of the first marker, or -1 when there is none. */
  function FindDashes(line: string): (pos: int)
    ensures pos == -1 || DashesAt(line, pos)
    ensures forall k :: 0 <= k && (pos == -1 || k < pos) ==> !DashesAt(line, k)
  {
    FindDashesFrom(line, 0)
  }

  /** The fragment contributed by a line that holds a marker, numbered `lineNo`. */
  function CommentOf(line: string, lineNo: int, file: string): Comment
    requires FindDashes(line) >= 0
  {
    var pos := FindDashes(line);
    Comment(line[pos + 2..], file, lineNo, pos + 2)
  }

  /**
   * The fragments of `lines`, the first of which is numbered `lineStart`:
   * the specification of `ExtractComments`.
   */
  function CommentsOf(lines: seq<string>, lineStart: int, file: string): seq<Comment>
  {
    if lines == [] then []
    else
      var n := |lines| - 1;
      CommentsOf(lines[..n], lineStart, file)
      + (if FindDashes(lines[n]) >= 0 then [CommentOf(lines[n], lineStart + n, file)] else [])
  }

  /** The indices, in increasing order, of the lines that hold a marker. */
  function MarkedLines(lines: seq<string>): (idx: seq<nat>)
    ensures forall k :: 0 <= k < |idx| ==> idx[k] < |lines| && FindDashes(lines[idx[k]]) >= 0
  {
    if lines == [] then []
    else
      var n := |lines| - 1;
      MarkedLines(lines[..n]) + (if FindDashes(lines[n]) >= 0 then [n] else [])
  }

  /** The marked lines are listed in increasing order. */
  lemma {:induction false} MarkedLinesIncrease(lines: seq<string>)
    ensures forall k, k' :: 0 <= k < k' < |MarkedLines(lines)| ==> MarkedLines(lines)[k] < MarkedLines(lines)[k']
  {
    if lines != [] {
      var n := |lines| - 1;
      var idx, idxf := MarkedLines(lines), MarkedLines(lines[..n]);
      MarkedLinesIncrease(lines[..n]);
      forall k, k' | 0 <= k < k' < |idx| ensures idx[k] < idx[k'] {
        assert idx[k] == idxf[k];
        if k' >= |idxf| {
          assert idx[k'] == n && idxf[k] < n;
        } else {
          assert idx[k'] == idxf[k'];
        }
      }
    }
  }

  /** No marked line is missed. */
  lemma {:induction false} MarkedLinesComplete(lines: seq<string>)
    ensures forall j :: 0 <= j < |lines| && FindDashes(lines[j]) >= 0 ==> j in MarkedLines(lines)
  {
    if lines != [] {
      var n := |lines| - 1;
      var front := lines[..n];
      MarkedLinesComplete(front);
      forall j | 0 <= j < n && FindDashes(lines[j]) >= 0 ensures j in MarkedLines(lines) {
        assert front[j] == lines[j];
      }
    }
  }

  /**
   * Exactly one fragment per line holding a marker, in line order: fragment
   * `k` comes from the `k`-th marked line, numbered `lineStart` plus its
   * index, with the text after its first "--" and the column `pos + 2`.
   */
  lemma {:induction false} CommentsOfMarkedLines(lines: seq<string>, lineStart: int, file: string)
    ensures |CommentsOf(lines, lineStart, file)| == |MarkedLines(lines)|
    ensures forall k :: 0 <= k < |MarkedLines(lines)| ==>
              CommentsOf(lines, lineStart, file)[k]
              == CommentOf(lines[MarkedLines(lines)[k]], lineStart + MarkedLines(lines)[k], file)
  {
    if lines != [] {
      var n := |lines| - 1;
      var front := lines[..n];
      CommentsOfMarkedLines(front, lineStart, file);
      var cs, cf := CommentsOf(lines, lineStart, file), CommentsOf(front, lineStart, file);
      var idx, idxf := MarkedLines(lines), MarkedLines(front);
      forall k | 0 <= k < |idx|
        ensures cs[k] == CommentOf(lines[idx[k]], lineStart + idx[k], file)
      {
        if k < |idxf| {
          assert idx[k] == idxf[k] && cs[k] == cf[k];
          assert front[idxf[k]] == lines[idxf[k]];
        } else {
          assert idx[k] == n && cs[k] == CommentOf(lines[n], lineStart + n, file);
        }
      }
    }
  }

  /** A line without the marker contributes nothing. */
  lemma {:induction false} UnmarkedLinesContributeNothing(lines: seq<string>, lineStart: int, file: string)
    requires forall j :: 0 <= j < |lines| ==> FindDashes(lines[j]) == -1
    ensures CommentsOf(lines, lineStart, file) == []
  {
    if lines != [] {
      UnmarkedLinesContributeNothing(lines[..|lines| - 1], lineStart, file);
    }
  }

  /**
   * `_extract_comments`: walk the lines of `sourcecode` with a running line
   * number and keep the text after the first "--" of each marked line.
   */
  method ExtractComments(sourcecode: string, lineStart: int, filename: string)
    returns (comment: seq<Comment>)
    ensures comment == CommentsOf(SplitLines(sourcecode), lineStart, filename)
  {
    comment := [];
    var l := lineStart;
    var lines := SplitLines(sourcecode);
    for i := 0 to |lines|
      invariant l == lineStart + i
      invariant comment == CommentsOf(lines[..i], lineStart, filename)
    {
      var line := lines[i];
      var pos := FindDashes(line);
      assert lines[..i + 1][..i] == lines[..i];
      if pos >= 0 {
        comment := comment + [Comment(line[pos + 2..], filename, l, pos + 2)];
      }
      l := l + 1;
    }
    assert lines[..|lines|] == lines;
  }
}
