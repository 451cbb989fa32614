# papsay: the speech-bubble renderer, in Dafny

papsay prints a message inside a cowsay-style speech bubble, with a mascot
underneath. All of its logic is in one function, `pappify`. This project
models that function as pure Dafny functions over byte strings and proves
what the bubble looks like.

`pappify` works in four steps:

1. Every tab in the message is replaced by four spaces.
2. The message is wrapped to 40 columns by the `textwrap` library.
3. `n_cols`, the length of the longest wrapped line (0 when there are no
   lines), sets the bubble's width. The content rows come in three shapes:
   - no lines: `< >`;
   - one line: `< line >`;
   - two or more lines: `/ … \`, then `| … |` rows, then `\ … /`, each padded
     with spaces to `n_cols`.
4. A top border of underscores and a bottom border of dashes surround the
   content. After that comes one newline and then the mascot.

Strings are `seq<byte>`, that is, UTF-8 bytes (`Text.byte`). Rust's
`str::len` counts bytes, so every width in the model is a byte length. The
source replaces the tab *character*. The model replaces the tab *byte*. The
two agree, because byte 9 never occurs inside a multi-byte UTF-8 sequence.

Modules:

- `Text`: bytes and their constants, `Repeat` (`str::repeat`), `Join` and
  `Split` on a separator, and the round-trip lemmas between them.
- `Tabs`: tab expansion.
- `Bubble`: `n_cols`, content rows, borders, the source's `message_text`, and
  the reference row list it is proved equal to.
- `Papsay`: `pappify` itself.

The wrapping library is the function parameter `wrap`. The model calls it
the way the source does, with the expanded message and the width 40. The
embedded mascot file is the parameter `mascot`. `pappify` itself asks
nothing of `wrap`. The lemmas that split the output on newlines assume
that no wrapped line contains a newline.

Three facts about the code shape what the model proves:

- **Widths are byte lengths.** Every width is a count of UTF-8 bytes, not
  of grapheme clusters or display columns.
- **Zero lines.** With zero wrapped lines, the content row `< >` is 3 bytes
  wide, while the borders ` __ ` and ` -- ` are 4 bytes wide. Equal widths
  therefore need at least one line (`Bubble.EmptyBubble`,
  `Bubble.UniformWidth`).
- **Padding.** The pad is the unclamped unsigned subtraction
  `n_cols - len`, which would panic below zero. The model writes it as a
  plain subtraction guarded by `requires |line| <= nCols` on
  `Bubble.Framed`, and proves that every call meets the guard, so the
  subtraction is never negative.

## Model

| member | source | states |
|---|---|---|
| Tabs.ExpandTabs | src/main.rs:9 | after expansion no tab is left, and the length grows by 3 per tab |
| Tabs.ExpandTabsBytes | src/main.rs:9 | expansion invents nothing: every output byte is a space or a byte of the message |
| Tabs.ExpandTabsAround | src/main.rs:9 | the expansion of a message is the expansion of the bytes before byte i, then what byte i becomes, then the expansion of the bytes after it |
| Tabs.ExpandTabsAppend | src/main.rs:9 | expansion distributes over concatenation, so each byte is replaced independently of its neighbours |
| Tabs.ExpandTabsAt | src/main.rs:9 | message byte i sits at offset i + 3·(tabs before i); a non-tab byte is kept there unchanged, and a tab becomes four spaces there |
| Tabs.ExpandTabsFixed | src/main.rs:9 | a message comes out unchanged exactly when it has no tab |
| Tabs.ExpandTabsIdempotent | src/main.rs:9 | expanding an already expanded message changes nothing |
| Tabs.TabIsFourSpaces | src/main.rs:9 | a tab expands to the same bytes as four spaces in its place |
| Papsay.WrappedLines | src/main.rs:9-11 | the wrapping library gets the tab-expanded message and the budget 40; a message without tabs reaches it unchanged |
| Papsay.TabRendersAsFourSpaces | src/main.rs:9-11 | the whole output for a message with a tab equals the output with four spaces in its place |
| Bubble.NCols | src/main.rs:12 | n_cols is 0 for no lines; otherwise it is at least every line's length and equal to some line's length |
| Bubble.ComputeNCols | src/main.rs:12 | the one-pass maximum with default 0 computes the same n_cols, with the same max characterisation |
| Text.Repeat | src/main.rs:24 | `str::repeat` gives exactly k copies of the byte |
| Bubble.SingleRow | src/main.rs:17 | the one-line row is `< `, the line unchanged, then ` >`; it is 4 bytes longer than the line, with no padding |
| Bubble.Framed | src/main.rs:19-32 | a multi-line row is n_cols + 4 wide, with its edges at both ends and the line unchanged after the 2-byte prefix; it can only be built when the pad n_cols - len is not negative |
| Bubble.ContentRows | src/main.rs:14-38 | the reference row list has one row per wrapped line, or a single row when there are none |
| Bubble.MultiLineBubble | src/main.rs:19-36 | with two or more lines, row k is the line, then n_cols - len spaces, between `/ \` for the first row, `\ /` for the last and `| |` for the rows between; the pad is never negative |
| Bubble.MiddleTextIsJoin | src/main.rs:30-36 | the interior rows, each followed by a newline and concatenated, then the last row, equal those rows joined with newlines |
| Bubble.PipeRows | src/main.rs:30-32 | there is one pipe-framed row per interior line |
| Bubble.MiddleText | src/main.rs:30-34 | the interior rows, each formatted with a trailing newline and concatenated, are the pipe-framed rows joined with newlines plus one final newline, or nothing when there are no interior lines |
| Bubble.MessageText | src/main.rs:14-38 | the code's message_text, built by the 0 / 1 / at-least-2 line-count match, is exactly the reference content rows joined with newlines |
| Bubble.TopBorder | src/main.rs:40 | the top border is a space, n_cols + 2 underscores, then a space: n_cols + 4 bytes |
| Bubble.BottomBorder | src/main.rs:41 | the bottom border is a space, n_cols + 2 dashes, then a space: n_cols + 4 bytes |
| Bubble.BubbleRows | src/main.rs:40-42 | the bubble has one row per line plus the two borders, or three rows when there are no lines |
| Bubble.BubbleText | src/main.rs:40-42 | top border, newline, message_text, newline and bottom border equal the bubble rows joined with newlines |
| Bubble.EmptyBubble | src/main.rs:14-41 | with no lines the rows are ` __ `, `< >` and ` -- `, of widths 4, 3 and 4 |
| Bubble.SingleLineBubble | src/main.rs:12-17 | with one line, n_cols is that line's length and its row is `< line >`, n_cols + 4 wide |
| Bubble.ContentRowWidth | src/main.rs:17-32 | with at least one line, every content row is n_cols + 4 bytes wide |
| Bubble.UniformWidth | src/main.rs:17-41 | with at least one line, every bubble row, borders included, is n_cols + 4 bytes wide |
| Bubble.LineInRow | src/main.rs:17-36 | content row k holds wrapped line k unchanged after its 2-byte prefix |
| Bubble.ContentRowFree | src/main.rs:17-36 | a content row contains a newline only if its wrapped line does |
| Bubble.RowsFree | src/main.rs:17-41 | if the wrapped lines contain no newline, neither does any bubble row |
| Text.SplitJoin | src/main.rs:42 | splitting newline-joined, newline-free rows on the newline gives back exactly those rows |
| Bubble.SplitBubble | src/main.rs:30-42 | splitting the bubble on newlines gives its rows: top border, one row per line, bottom border, which is lines + 2 rows |
| Papsay.Pappify | src/main.rs:8-45 | the output is the bubble rows joined with newlines, then one newline, then the mascot, which is an unmodified suffix |
| Papsay.SplitOutput | src/main.rs:42-45 | splitting the output on newlines gives the bubble's rows followed by the mascot's own lines |

## Left out

- Command-line parsing with `clap` (`Args`, `main`, src/main.rs:1-6 and
  48-52) is I/O plumbing. So is the trailing newline `println!` adds when it
  prints the output.
- The internals of `textwrap::wrap` (src/main.rs:11). It is a foreign
  library that measures Unicode display width. The model keeps it as the
  parameter `wrap` and says nothing about its output, so:
  - the 40-column bound is not stated, since the library measures display
    width, not bytes;
  - whether the library ever returns zero lines is not stated.
- The contents of the embedded mascot file `papjesz.pap` (src/main.rs:43).
  The file is not part of this model, and the mascot is an opaque parameter.
- Grapheme-cluster widths. The code has none; every width is a byte length.
- Overflow of the unsigned `n_cols + 2` (src/main.rs:40-41). It would need a
  line close to the size of the address space, so integers here are
  unbounded.
