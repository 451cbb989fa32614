/** Tab expansion: every tab of the message becomes four spaces before the
    message is wrapped. The replacement works byte by byte; this agrees with
    replacing the tab character because the byte 9 never occurs inside a
    multi-byte UTF-8 sequence. */
module Tabs {
  import opened Text

  const FOUR_SPACES: Bytes := [SPACE, SPACE, SPACE, SPACE]

  /** What one byte of the message becomes: four spaces for a tab, the
      byte itself otherwise. */
  function ExpandOne(b: byte): Bytes
  {
    if b == TAB then FOUR_SPACES else [b]
  }

  /** The message with each tab replaced by four spaces. No tab is left,
      and each tab adds three bytes. */
  function ExpandTabs(s: Bytes): (r: Bytes)
    ensures TAB !in r
    ensures |r| == |s| + 3 * Count(s, TAB)
  {
    if s == [] then []
    else ExpandOne(s[0]) + ExpandTabs(s[1..])
  }

  /** Expansion invents nothing: every byte of the result is a space or a
      byte of the message. */
  lemma {:induction false} ExpandTabsBytes(s: Bytes)
    ensures forall j :: 0 <= j < |ExpandTabs(s)| ==> ExpandTabs(s)[j] == SPACE || ExpandTabs(s)[j] in s
  {
    if s != [] {
      ExpandTabsBytes(s[1..]);
      var head := ExpandOne(s[0]);
      var r := ExpandTabs(s);
      assert r == head + ExpandTabs(s[1..]);
      forall j | 0 <= j < |r|
        ensures r[j] == SPACE || r[j] in s
      {
        if j >= |head| {
          assert r[j] == ExpandTabs(s[1..])[j - |head|];
        }
      }
    }
  }

  /** Expansion distributes over concatenation. */
  lemma {:induction false} ExpandTabsAppend(a: Bytes, b: Bytes)
    ensures ExpandTabs(a + b) == ExpandTabs(a) + ExpandTabs(b)
  {
    if a == [] {
      assert a + b == b;
    } else {
      assert (a + b)[1..] == a[1..] + b;
      ExpandTabsAppend(a[1..], b);
    }
  }

  /** Where the `i`-th byte of the message lands: after the expansions of
      the bytes before it. */
  function Offset(s: Bytes, i: nat): nat
    requires i <= |s|
  {
    i + 3 * Count(s[..i], TAB)
  }

  /** The expansion of a message around its `i`-th byte. */
  lemma ExpandTabsAround(s: Bytes, i: nat)
    requires i < |s|
    ensures ExpandTabs(s) == ExpandTabs(s[..i]) + ExpandOne(s[i]) + ExpandTabs(s[i + 1..])
    ensures |ExpandTabs(s[..i])| == Offset(s, i)
  {
    assert s == s[..i] + ([s[i]] + s[i + 1..]);
    ExpandTabsAppend(s[..i], [s[i]] + s[i + 1..]);
    ExpandTabsAppend([s[i]], s[i + 1..]);
    assert [s[i]][1..] == [];
  }

  /** Each byte of the message is kept, in order, at its offset; each tab
      has four spaces at its offset instead. */
  lemma ExpandTabsAt(s: Bytes, i: nat)
    requires i < |s|
    ensures Offset(s, i) + (if s[i] == TAB then 4 else 1) <= |ExpandTabs(s)|
    ensures s[i] != TAB ==> ExpandTabs(s)[Offset(s, i)] == s[i]
    ensures s[i] == TAB ==> ExpandTabs(s)[Offset(s, i)..Offset(s, i) + 4] == FOUR_SPACES
  {
    ExpandTabsAround(s, i);
    var before := ExpandTabs(s[..i]);
    var here := ExpandOne(s[i]);
    var r := before + here + ExpandTabs(s[i + 1..]);
    assert r[|before|..|before| + |here|] == here;
  }

  /** A message is left unchanged exactly when it has no tab. */
  lemma {:induction false} ExpandTabsFixed(s: Bytes)
    ensures ExpandTabs(s) == s <==> TAB !in s
  {
    if s != [] && TAB !in s {
      ExpandTabsFixed(s[1..]);
      assert [s[0]] + s[1..] == s;
    }
  }

  /** Expanding twice is expanding once. */
  lemma ExpandTabsIdempotent(s: Bytes)
    ensures ExpandTabs(ExpandTabs(s)) == ExpandTabs(s)
  {
    ExpandTabsFixed(ExpandTabs(s));
  }

  /** A tab in the message has the same effect as four spaces there. */
  lemma TabIsFourSpaces(a: Bytes, b: Bytes)
    ensures ExpandTabs(a + [TAB] + b) == ExpandTabs(a + FOUR_SPACES + b)
  {
    ExpandTabsAppend(a + [TAB], b);
    ExpandTabsAppend(a, [TAB]);
    ExpandTabsAppend(a + FOUR_SPACES, b);
    ExpandTabsAppend(a, FOUR_SPACES);
    ExpandTabsFixed(FOUR_SPACES);
    assert ExpandTabs([TAB]) == FOUR_SPACES;
  }
}
