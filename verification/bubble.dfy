/** The speech bubble drawn around the wrapped lines of a message: the column
    count `n_cols`, the content rows (one of three shapes by line count), the
    two borders, and the bubble text that joins them with newlines. Widths
    are byte lengths, as `str::len` measures them. */
module Bubble {
  import opened Text

  /** `n_cols`: the length of the longest line, or 0 when there are none. */
  function NCols(lines: seq<Bytes>): (n: nat)
    ensures lines == [] ==> n == 0
    ensures forall i :: 0 <= i < |lines| ==> |lines[i]| <= n
    ensures lines != [] ==> exists i :: 0 <= i < |lines| && |lines[i]| == n
  {
    if lines == [] then 0
    else
      var m := NCols(lines[1..]);
      if |lines[0]| >= m then |lines[0]| else
        assert |lines[1..]| > 0;
        var k :| 0 <= k < |lines[1..]| && |lines[1..][k]| == m;
        assert |lines[k + 1]| == m;
        m
  }

  /** `n_cols` as the source computes it, by one pass over the lines taking
      the maximum of their lengths with 0 as the default. */
  method ComputeNCols(lines: seq<Bytes>) returns (n: nat)
    ensures n == NCols(lines)
    ensures forall i :: 0 <= i < |lines| ==> |lines[i]| <= n
    ensures lines != [] ==> exists i :: 0 <= i < |lines| && |lines[i]| == n
  {
    n := 0;
    var i := 0;
    while i < |lines|
      invariant 0 <= i <= |lines|
      invariant forall j :: 0 <= j < i ==> |lines[j]| <= n
      invariant i == 0 ==> n == 0
      invariant i > 0 ==> exists j :: 0 <= j < i && |lines[j]| == n
    {
      if |lines[i]| > n {
        n := |lines[i]|;
      }
      i := i + 1;
    }
  }

  /** The content row of a bubble with no lines. */
  const EMPTY_ROW: Bytes := [LT, SPACE, GT]

  /** The content row of a bubble with exactly one line: no padding. */
  function SingleRow(line: Bytes): (r: Bytes)
    ensures |r| == |line| + 4
    ensures r[..2] == [LT, SPACE] && r[2..|line| + 2] == line && r[|line| + 2..] == [SPACE, GT]
  {
    [LT, SPACE] + line + [SPACE, GT]
  }

  /** A content row of a bubble with two or more lines: the line between
      `left` and `right`, right-padded with spaces to `nCols` columns. The
      requirement is that the padding `nCols - |line|` is not negative. */
  function Framed(left: byte, line: Bytes, nCols: nat, right: byte): (r: Bytes)
    requires |line| <= nCols
    ensures |r| == nCols + 4
    ensures r[0] == left && r[1] == SPACE && r[2..|line| + 2] == line
    ensures r[nCols + 3] == right
  {
    [left, SPACE] + line + Repeat(SPACE, nCols - |line|) + [SPACE, right]
  }

  /** True when every line fits in `nCols` columns. */
  predicate Fits(lines: seq<Bytes>, nCols: nat)
  {
    forall i :: 0 <= i < |lines| ==> |lines[i]| <= nCols
  }

  /** The left edge of content row `k` of `count >= 2` rows. */
  function LeftEdge(k: nat, count: nat): byte
  {
    if k == 0 then SLASH else if k == count - 1 then BACKSLASH else PIPE
  }

  /** The right edge of content row `k` of `count >= 2` rows. */
  function RightEdge(k: nat, count: nat): byte
  {
    if k == 0 then BACKSLASH else if k == count - 1 then SLASH else PIPE
  }

  /** The content rows of the bubble, one per line (one row when there are
      no lines): the reference the source's `message_text` is compared to. */
  function ContentRows(lines: seq<Bytes>): (r: seq<Bytes>)
    ensures |r| == if lines == [] then 1 else |lines|
  {
    if |lines| == 0 then [EMPTY_ROW]
    else if |lines| == 1 then [SingleRow(lines[0])]
    else
      var n := NCols(lines);
      seq(|lines|, k requires 0 <= k < |lines| =>
        Framed(LeftEdge(k, |lines|), lines[k], n, RightEdge(k, |lines|)))
  }

  /** The interior rows framed by `|`, one per interior line. */
  function PipeRows(ms: seq<Bytes>, nCols: nat): (r: seq<Bytes>)
    requires Fits(ms, nCols)
    ensures |r| == |ms|
  {
    seq(|ms|, i requires 0 <= i < |ms| => Framed(PIPE, ms[i], nCols, PIPE))
  }

  /** The interior rows as the source writes them: each row followed by a
      newline, all concatenated. That is the `|` rows joined with newlines
      and one newline more, or nothing when there are no interior lines. */
  function MiddleText(ms: seq<Bytes>, nCols: nat): (r: Bytes)
    requires Fits(ms, nCols)
    ensures ms == [] ==> r == []
    ensures ms != [] ==> r == Join(PipeRows(ms, nCols), NL) + [NL]
  {
    if ms == [] then []
    else
      var head := Framed(PIPE, ms[0], nCols, PIPE);
      var rest := MiddleText(ms[1..], nCols);
      assert PipeRows(ms, nCols)[0] == head;
      assert PipeRows(ms, nCols)[1..] == PipeRows(ms[1..], nCols);
      if ms[1..] != [] then
        assert head + [NL] + rest == head + [NL] + Join(PipeRows(ms[1..], nCols), NL) + [NL];
        head + [NL] + rest
      else
        head + [NL] + rest
  }

  /** `message_text`, the content block as the source builds it by line
      count. It is exactly the content rows joined with newlines. */
  function MessageText(lines: seq<Bytes>): (r: Bytes)
    ensures r == Join(ContentRows(lines), NL)
  {
    var n := NCols(lines);
    if |lines| == 0 then
      assert ContentRows(lines) == [EMPTY_ROW];
      EMPTY_ROW
    else if |lines| == 1 then
      assert ContentRows(lines) == [SingleRow(lines[0])];
      SingleRow(lines[0])
    else
      var c := |lines|;
      var ms := lines[1..c - 1];
      InteriorFits(lines);
      var first := Framed(SLASH, lines[0], n, BACKSLASH);
      var middle := MiddleText(ms, n);
      var last := Framed(BACKSLASH, lines[c - 1], n, SLASH);
      RowsAfterFirst(lines);
      MiddleTextIsJoin(ms, n, ContentRows(lines)[1..]);
      ManyRow(lines, 0);
      ManyRow(lines, c - 1);
      JoinFirstThen(ContentRows(lines), first, middle, last);
      first + [NL] + middle + last
  }

  /** The top border: underscores over the content and its two spaces. */
  function TopBorder(nCols: nat): (r: Bytes)
    ensures |r| == nCols + 4
    ensures r[0] == SPACE && r[nCols + 3] == SPACE
    ensures forall j :: 1 <= j < nCols + 3 ==> r[j] == UNDERSCORE
  {
    [SPACE] + Repeat(UNDERSCORE, nCols + 2) + [SPACE]
  }

  /** The bottom border: dashes under the content and its two spaces. */
  function BottomBorder(nCols: nat): (r: Bytes)
    ensures |r| == nCols + 4
    ensures r[0] == SPACE && r[nCols + 3] == SPACE
    ensures forall j :: 1 <= j < nCols + 3 ==> r[j] == DASH
  {
    [SPACE] + Repeat(DASH, nCols + 2) + [SPACE]
  }

  /** Every row of the bubble, top border to bottom border. */
  function BubbleRows(lines: seq<Bytes>): (r: seq<Bytes>)
    ensures |r| == (if lines == [] then 1 else |lines|) + 2
  {
    [TopBorder(NCols(lines))] + ContentRows(lines) + [BottomBorder(NCols(lines))]
  }

  /** The interior rows written out the source's way, followed by `last`,
      are `rows` joined with newlines when `rows` are the interior rows and
      then `last`. */
  lemma {:induction false} MiddleTextIsJoin(ms: seq<Bytes>, nCols: nat, rows: seq<Bytes>)
    requires Fits(ms, nCols)
    requires |rows| == |ms| + 1
    requires forall i :: 0 <= i < |ms| ==> rows[i] == Framed(PIPE, ms[i], nCols, PIPE)
    ensures MiddleText(ms, nCols) + rows[|ms|] == Join(rows, NL)
  {
    if ms != [] {
      MiddleTextIsJoin(ms[1..], nCols, rows[1..]);
    }
  }

  /** With two or more lines, reference row `k` frames line `k` with the
      edges for its position. */
  lemma ManyRow(lines: seq<Bytes>, k: nat)
    requires |lines| >= 2 && k < |lines|
    ensures |lines[k]| <= NCols(lines)
    ensures ContentRows(lines)[k] ==
      Framed(LeftEdge(k, |lines|), lines[k], NCols(lines), RightEdge(k, |lines|))
  {
  }

  /** The interior lines fit in `n_cols` columns. */
  lemma InteriorFits(lines: seq<Bytes>)
    requires |lines| >= 2
    ensures Fits(lines[1..|lines| - 1], NCols(lines))
  {
    var ms := lines[1..|lines| - 1];
    forall i | 0 <= i < |ms|
      ensures |ms[i]| <= NCols(lines)
    {
      assert ms[i] == lines[i + 1];
    }
  }

  /** With two or more lines, the reference rows after the first are the
      `| |` rows of the interior lines and then the `\ /` row. */
  lemma RowsAfterFirst(lines: seq<Bytes>)
    requires |lines| >= 2
    ensures Fits(lines[1..|lines| - 1], NCols(lines))
    ensures forall i :: 0 <= i < |lines| - 2 ==>
      ContentRows(lines)[1..][i] == Framed(PIPE, lines[1..|lines| - 1][i], NCols(lines), PIPE)
  {
    InteriorFits(lines);
    var ms := lines[1..|lines| - 1];
    forall i | 0 <= i < |lines| - 2
      ensures ContentRows(lines)[1..][i] == Framed(PIPE, ms[i], NCols(lines), PIPE)
    {
      ManyRow(lines, i + 1);
    }
  }

  /** Rows whose first row is `first` and whose other rows join to
      `middle + last` join to `first`, a newline, `middle` and `last`. */
  lemma JoinFirstThen(rows: seq<Bytes>, first: Bytes, middle: Bytes, last: Bytes)
    requires |rows| >= 2 && rows[0] == first
    requires Join(rows[1..], NL) == middle + last
    ensures Join(rows, NL) == first + [NL] + middle + last
  {
    assert Join(rows, NL) == first + [NL] + (middle + last);
  }

  /** The bubble: top border, content block and bottom border, separated by
      newlines. It is exactly its rows joined with newlines. */
  function BubbleText(lines: seq<Bytes>): (r: Bytes)
    ensures r == Join(BubbleRows(lines), NL)
  {
    var n := NCols(lines);
    var content := MessageText(lines);
    JoinFramedBy(TopBorder(n), ContentRows(lines), BottomBorder(n), content);
    TopBorder(n) + [NL] + content + [NL] + BottomBorder(n)
  }

  /** Rows between a first and a last row join to the first row, the inner
      rows joined, and the last row, with newlines between. */
  lemma JoinFramedBy(top: Bytes, rows: seq<Bytes>, bottom: Bytes, inner: Bytes)
    requires rows != [] && inner == Join(rows, NL)
    ensures Join([top] + rows + [bottom], NL) == top + [NL] + inner + [NL] + bottom
  {
    var all := [top] + rows + [bottom];
    assert all[1..] == rows + [bottom];
    JoinSnoc(rows, bottom, NL);
  }

  /** With no lines, the content row is `< >`, three bytes wide, between
      borders ` __ ` and ` -- `, four bytes wide. */
  lemma EmptyBubble()
    ensures NCols([]) == 0
    ensures BubbleRows([]) == [[SPACE, UNDERSCORE, UNDERSCORE, SPACE], [LT, SPACE, GT], [SPACE, DASH, DASH, SPACE]]
    ensures |BubbleRows([])[0]| == 4 && |BubbleRows([])[1]| == 3 && |BubbleRows([])[2]| == 4
  {
    assert TopBorder(0) == [SPACE, UNDERSCORE, UNDERSCORE, SPACE];
    assert BottomBorder(0) == [SPACE, DASH, DASH, SPACE];
  }

  /** With one line, `n_cols` is that line's length and its row is
      `< line >`, `n_cols + 4` wide. */
  lemma SingleLineBubble(line: Bytes)
    ensures NCols([line]) == |line|
    ensures ContentRows([line]) == [[LT, SPACE] + line + [SPACE, GT]]
    ensures |ContentRows([line])[0]| == NCols([line]) + 4
  {
  }

  /** With two or more lines, row `k` holds line `k` padded with
      `n_cols - |line|` spaces, framed by `/ \` on the first row, `\ /` on
      the last and `| |` on every row between. */
  lemma MultiLineBubble(lines: seq<Bytes>, k: nat)
    requires |lines| >= 2 && k < |lines|
    ensures |lines[k]| <= NCols(lines)
    ensures k == 0 ==> (ContentRows(lines)[k] ==
      [SLASH, SPACE] + lines[k] + Repeat(SPACE, NCols(lines) - |lines[k]|) + [SPACE, BACKSLASH])
    ensures k == |lines| - 1 ==> (ContentRows(lines)[k] ==
      [BACKSLASH, SPACE] + lines[k] + Repeat(SPACE, NCols(lines) - |lines[k]|) + [SPACE, SLASH])
    ensures 0 < k < |lines| - 1 ==> (ContentRows(lines)[k] ==
      [PIPE, SPACE] + lines[k] + Repeat(SPACE, NCols(lines) - |lines[k]|) + [SPACE, PIPE])
  {
    ManyRow(lines, k);
  }

  /** With at least one line, every row of the bubble, borders included, is
      `n_cols + 4` bytes wide. */
  lemma UniformWidth(lines: seq<Bytes>)
    requires lines != []
    ensures forall k :: 0 <= k < |BubbleRows(lines)| ==> |BubbleRows(lines)[k]| == NCols(lines) + 4
  {
    var rows := BubbleRows(lines);
    forall k | 0 <= k < |rows|
      ensures |rows[k]| == NCols(lines) + 4
    {
      if 1 <= k <= |lines| {
        assert rows[k] == ContentRows(lines)[k - 1];
        ContentRowWidth(lines, k - 1);
      }
    }
  }

  /** With at least one line, each content row is `n_cols + 4` wide. */
  lemma ContentRowWidth(lines: seq<Bytes>, k: nat)
    requires k < |lines|
    ensures |ContentRows(lines)[k]| == NCols(lines) + 4
  {
    if |lines| >= 2 {
      ManyRow(lines, k);
    } else {
      assert NCols(lines) == |lines[0]|;
    }
  }

  /** Content row `k` carries line `k` unchanged right after its two-byte
      prefix. */
  lemma LineInRow(lines: seq<Bytes>, k: nat)
    requires k < |lines|
    ensures |lines[k]| + 2 <= |ContentRows(lines)[k]|
    ensures ContentRows(lines)[k][2..|lines[k]| + 2] == lines[k]
  {
  }

  /** Repeating a byte other than the newline gives no newline. */
  lemma RepeatFree(b: byte, k: nat)
    requires b != NL
    ensures NL !in Repeat(b, k)
  {
  }

  /** A content row has a newline only where its line has one. */
  lemma ContentRowFree(lines: seq<Bytes>, k: nat)
    requires k < |lines| && NL !in lines[k]
    ensures NL !in ContentRows(lines)[k]
  {
    if |lines| >= 2 {
      ManyRow(lines, k);
      FramedFree(LeftEdge(k, |lines|), lines[k], NCols(lines), RightEdge(k, |lines|));
    }
  }

  /** A framed row has a newline only where its line has one. */
  lemma FramedFree(left: byte, line: Bytes, nCols: nat, right: byte)
    requires |line| <= nCols
    requires left != NL && right != NL && NL !in line
    ensures NL !in Framed(left, line, nCols, right)
  {
    RepeatFree(SPACE, nCols - |line|);
  }

  /** No row of the bubble contains a newline when no line does. */
  lemma RowsFree(lines: seq<Bytes>)
    requires Free(lines, NL)
    ensures Free(BubbleRows(lines), NL)
  {
    var n := NCols(lines);
    var rows := BubbleRows(lines);
    var content := ContentRows(lines);
    RepeatFree(UNDERSCORE, n + 2);
    RepeatFree(DASH, n + 2);
    forall k | 1 <= k < |rows| - 1
      ensures NL !in rows[k]
    {
      assert rows[k] == content[k - 1];
      if lines != [] {
        ContentRowFree(lines, k - 1);
      }
    }
    assert rows[0] == TopBorder(n);
    assert rows[|rows| - 1] == BottomBorder(n);
  }

  /** Splitting the bubble on newlines gives back its rows: the top border,
      one content row per line and the bottom border. */
  lemma SplitBubble(lines: seq<Bytes>)
    requires Free(lines, NL)
    ensures Split(BubbleText(lines), NL) == BubbleRows(lines)
    ensures |Split(BubbleText(lines), NL)| == (if lines == [] then 1 else |lines|) + 2
  {
    RowsFree(lines);
    SplitJoin(BubbleRows(lines), NL);
  }
}
