/** Byte strings, as Rust's `String` holds them: a UTF-8 encoded sequence of
    bytes whose `len()` is the number of bytes. This module gives the byte
    constants the bubble is drawn with, `str::repeat`, and the two ways of
    moving between one text and its rows: joining rows with a separator (what
    `format!("{}\n{}", ..)` does) and splitting a text on a separator (what a
    reader of the output, or `str::split`, does). */
module Text {

  /** One byte of UTF-8 encoded text. */
  newtype byte = x: int | 0 <= x < 256

  type Bytes = seq<byte>

  const TAB: byte := 9
  const NL: byte := 10
  const SPACE: byte := 32
  const DASH: byte := 45
  const SLASH: byte := 47
  const LT: byte := 60
  const GT: byte := 62
  const BACKSLASH: byte := 92
  const UNDERSCORE: byte := 95
  const PIPE: byte := 124

  /** The number of occurrences of `b` in `s`. */
  function Count(s: Bytes, b: byte): nat
  {
    if s == [] then 0 else (if s[0] == b then 1 else 0) + Count(s[1..], b)
  }

  /** `b` repeated `k` times, as `str::repeat` on a one-byte string. */
  function Repeat(b: byte, k: nat): (r: Bytes)
    ensures |r| == k
    ensures forall i :: 0 <= i < k ==> r[i] == b
  {
    if k == 0 then [] else [b] + Repeat(b, k - 1)
  }

  /** True when no row of `rows` contains `sep`. */
  predicate Free(rows: seq<Bytes>, sep: byte)
  {
    forall i :: 0 <= i < |rows| ==> sep !in rows[i]
  }

  /** The rows written one after another with `sep` between neighbours and
      none after the last. */
  function Join(rows: seq<Bytes>, sep: byte): Bytes
  {
    if rows == [] then []
    else if |rows| == 1 then rows[0]
    else rows[0] + [sep] + Join(rows[1..], sep)
  }

  /** Appending a row to joined rows is appending a separator and the row. */
  lemma {:induction false} JoinSnoc(rows: seq<Bytes>, last: Bytes, sep: byte)
    requires rows != []
    ensures Join(rows + [last], sep) == Join(rows, sep) + [sep] + last
  {
    if |rows| > 1 {
      assert (rows + [last])[1..] == rows[1..] + [last];
      JoinSnoc(rows[1..], last, sep);
    }
  }

  /** The pieces of `s` between occurrences of `sep`, as `str::split` with a
      one-byte pattern yields them: the empty text is one empty piece, and a
      separator at either end gives an empty piece there. */
  function Split(s: Bytes, sep: byte): (r: seq<Bytes>)
    ensures |r| == Count(s, sep) + 1
    ensures Free(r, sep)
    decreases |s|
  {
    if s == [] then [[]]
    else
      var rest := Split(s[1..], sep);
      if s[0] == sep then [[]] + rest
      else [[s[0]] + rest[0]] + rest[1..]
  }

  /** A text without the separator is a single piece. */
  lemma {:induction false} SplitNoSep(a: Bytes, sep: byte)
    requires sep !in a
    ensures Split(a, sep) == [a]
  {
    if a != [] {
      SplitNoSep(a[1..], sep);
      assert [a[0]] + a[1..] == a;
    }
  }

  /** The first separator of a text ends its first piece. */
  lemma {:induction false} SplitAfterSep(a: Bytes, b: Bytes, sep: byte)
    requires sep !in a
    ensures Split(a + [sep] + b, sep) == [a] + Split(b, sep)
  {
    var s := a + [sep] + b;
    if a == [] {
      assert s[1..] == b;
    } else {
      assert s[1..] == a[1..] + [sep] + b;
      SplitAfterSep(a[1..], b, sep);
      assert [a[0]] + a[1..] == a;
    }
  }

  /** Splitting undoes joining, for rows free of the separator. */
  lemma {:induction false} SplitJoin(rows: seq<Bytes>, sep: byte)
    requires rows != []
    requires Free(rows, sep)
    ensures Split(Join(rows, sep), sep) == rows
  {
    if |rows| == 1 {
      SplitNoSep(rows[0], sep);
    } else {
      SplitAfterSep(rows[0], Join(rows[1..], sep), sep);
      SplitJoin(rows[1..], sep);
    }
  }

  /** Splitting joined rows followed by a separator and any further text
      gives back the rows, then the pieces of that text. */
  lemma {:induction false} SplitJoinThen(rows: seq<Bytes>, b: Bytes, sep: byte)
    requires rows != []
    requires Free(rows, sep)
    ensures Split(Join(rows, sep) + [sep] + b, sep) == rows + Split(b, sep)
  {
    if |rows| == 1 {
      SplitAfterSep(rows[0], b, sep);
    } else {
      var tail := Join(rows[1..], sep);
      assert Join(rows, sep) + [sep] + b == rows[0] + [sep] + (tail + [sep] + b);
      SplitAfterSep(rows[0], tail + [sep] + b, sep);
      SplitJoinThen(rows[1..], b, sep);
      assert [rows[0]] + rows[1..] == rows;
    }
  }

  /** Joining undoes splitting, for every text. */
  lemma {:induction false} JoinSplit(s: Bytes, sep: byte)
    ensures Join(Split(s, sep), sep) == s
  {
    if s != [] {
      var rest := Split(s[1..], sep);
      JoinSplit(s[1..], sep);
      if s[0] == sep {
        assert [[]] + rest != [] && ([[]] + rest)[1..] == rest;
        assert s == [sep] + s[1..];
      } else {
        var r := [[s[0]] + rest[0]] + rest[1..];
        if |rest| == 1 {
          assert s == [s[0]] + s[1..];
        } else {
          assert r[1..] == rest[1..];
          assert Join(rest, sep) == rest[0] + [sep] + Join(rest[1..], sep);
          assert s == [s[0]] + s[1..];
        }
      }
    }
  }
}
