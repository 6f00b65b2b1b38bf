/** Byte strings: literals, splitting and joining. */
module Bytes {
  type byte = b: int | 0 <= b < 256

  type bytes = seq<byte>

  function Ascii(s: string): (b: bytes)
    requires forall i :: 0 <= i < |s| ==> s[i] as int < 128
    ensures |b| == |s| && forall i :: 0 <= i < |s| ==> b[i] == s[i] as int
  {
    seq(|s|, i requires 0 <= i < |s| => s[i] as int)
  }

  /** The pieces between separators; the empty string is one empty piece. */
  function Split(s: bytes, sep: byte): (pieces: seq<bytes>)
    ensures |pieces| >= 1
  {
    if s == [] then [[]]
    else
      var rest := Split(s[1..], sep);
      if s[0] == sep then [[]] + rest else [[s[0]] + rest[0]] + rest[1..]
  }

  function Join(pieces: seq<bytes>, sep: byte): bytes {
    if pieces == [] then []
    else if |pieces| == 1 then pieces[0]
    else pieces[0] + [sep] + Join(pieces[1..], sep)
  }

  lemma {:induction false} JoinSplit(s: bytes, sep: byte)
    ensures Join(Split(s, sep), sep) == s
  {
    if s != [] {
      JoinSplit(s[1..], sep);
      var rest := Split(s[1..], sep);
      assert Split(s, sep)[1..] == if s[0] == sep then rest else rest[1..];
    }
  }

  /** One byte in front changes the first piece only. */
  lemma SplitStep(a: bytes, more: seq<bytes>, sep: byte)
    requires a != []
    ensures var rest := Split(a[1..], sep) + more;
      Split(a, sep) + more == if a[0] == sep then [[]] + rest else [[a[0]] + rest[0]] + rest[1..]
  {
    var left := Split(a[1..], sep);
    assert (left + more)[1..] == left[1..] + more;
  }

  lemma {:induction false} SplitConcat(a: bytes, b: bytes, sep: byte)
    ensures Split(a + [sep] + b, sep) == Split(a, sep) + Split(b, sep)
  {
    var all := a + [sep] + b;
    if a == [] {
      assert all[0] == sep && all[1..] == b;
    } else {
      assert all[0] == a[0] && all[1..] == a[1..] + [sep] + b;
      SplitConcat(a[1..], b, sep);
      SplitStep(a, Split(b, sep), sep);
    }
  }

  lemma {:induction false} SplitWithoutSeparator(s: bytes, sep: byte)
    requires sep !in s
    ensures Split(s, sep) == [s]
  {
    if s != [] {
      SplitWithoutSeparator(s[1..], sep);
      assert [s[0]] + s[1..] == s && [s[1..]][1..] == [];
    }
  }

  /** The part before the first separator and the part after it; without one, everything and nothing. */
  function Cut(s: bytes, sep: byte): (bytes, bytes) {
    if s == [] then ([], [])
    else if s[0] == sep then ([], s[1..])
    else var (before, after) := Cut(s[1..], sep); ([s[0]] + before, after)
  }

  lemma {:induction false} CutAtFirst(before: bytes, after: bytes, sep: byte)
    requires sep !in before
    ensures Cut(before + [sep] + after, sep) == (before, after)
  {
    var s := before + [sep] + after;
    if before == [] {
      assert s[1..] == after;
    } else {
      assert s[1..] == before[1..] + [sep] + after;
      CutAtFirst(before[1..], after, sep);
      assert [s[0]] + before[1..] == before;
    }
  }
}
