/** `pappify`: expand the tabs of a message, wrap it, draw the speech bubble
    around the wrapped lines and put the mascot under it.

    The wrapping library is not part of this model: it is the parameter
    `wrap`, called as the source calls it, with the expanded message and the
    column budget 40. The mascot, a text embedded when the program is built,
    is the parameter `mascot`. */
module Papsay {
  import opened Text
  import opened Tabs
  import opened Bubble

  /** The column budget handed to the wrapping library. */
  const WRAP_WIDTH: nat := 40

  /** The wrapped lines of the message: the wrapping library applied to the
      tab-expanded message with the column budget 40. A message without tabs
      reaches the library unchanged. */
  function WrappedLines(s: Bytes, wrap: (Bytes, nat) -> seq<Bytes>): (r: seq<Bytes>)
    ensures TAB !in s ==> r == wrap(s, WRAP_WIDTH)
  {
    ExpandTabsFixed(s);
    wrap(ExpandTabs(s), WRAP_WIDTH)
  }

  /** The whole output: the bubble, one newline, then the mascot as it is.
      The result is the rows of the bubble joined with newlines, and the
      mascot is an unmodified suffix of it. */
  function Pappify(s: Bytes, wrap: (Bytes, nat) -> seq<Bytes>, mascot: Bytes): (r: Bytes)
    ensures r == Join(BubbleRows(WrappedLines(s, wrap)), NL) + [NL] + mascot
    ensures |r| >= |mascot| + 1 && r[|r| - |mascot|..] == mascot && r[|r| - |mascot| - 1] == NL
  {
    var lines := WrappedLines(s, wrap);
    BubbleText(lines) + [NL] + mascot
  }

  /** When the wrapped lines hold no newline, splitting the output on
      newlines gives the bubble's rows, `|lines| + 2` of them (3 when there
      are no lines), followed by the mascot's own lines. */
  lemma SplitOutput(s: Bytes, wrap: (Bytes, nat) -> seq<Bytes>, mascot: Bytes)
    requires Free(WrappedLines(s, wrap), NL)
    ensures Split(Pappify(s, wrap, mascot), NL) == BubbleRows(WrappedLines(s, wrap)) + Split(mascot, NL)
  {
    var lines := WrappedLines(s, wrap);
    RowsFree(lines);
    SplitJoinThen(BubbleRows(lines), mascot, NL);
  }

  /** The output for a message with a tab is the output for the same
      message with four spaces in place of that tab. */
  lemma TabRendersAsFourSpaces(a: Bytes, b: Bytes, wrap: (Bytes, nat) -> seq<Bytes>, mascot: Bytes)
    ensures Pappify(a + [TAB] + b, wrap, mascot) == Pappify(a + FOUR_SPACES + b, wrap, mascot)
  {
    TabIsFourSpaces(a, b);
  }
}
