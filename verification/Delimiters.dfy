/** The two split functions, on narrow and on wide text. */
module Delimiters {
  import opened OdbcTypes

  // ----- split -----

  const NUL: int := 0

  /** Characters as code units, followed in memory by a terminator. */
  type Units = seq<int>

  function UnitAt(str: Units, i: nat): int {
    if i < |str| then str[i] else NUL
  }

  /** The index of the first unit `c`, or the length when there is none. */
  function FindUnit(s: Units, c: int): (r: nat)
    ensures r <= |s| && c !in s[..r] && (r < |s| ==> s[r] == c)
  {
    if s == [] || s[0] == c then 0
    else
      assert s[..1 + FindUnit(s[1..], c)] == [s[0]] + s[1..][..FindUnit(s[1..], c)];
      1 + FindUnit(s[1..], c)
  }

  /** The text a split looks at: up to its length, if that is not negative, or its terminator. */
  function Extent(str: Units, len: int): (r: Units)
    ensures r <= str && 0 !in r
  {
    var n := FindUnit(str, NUL);
    str[..if 0 <= len < n then len else n]
  }

  /** The pieces between the delimiters; there is always a last one, which may be empty. */
  function Pieces(s: Units, d: int): (r: seq<Units>)
    ensures |r| > 0
    decreases |s|
  {
    var i := FindUnit(s, d);
    if i == |s| then [s] else [s[..i]] + Pieces(s[i + 1..], d)
  }

  function JoinUnits(pieces: seq<Units>, d: int): Units {
    if pieces == [] then [] else if |pieces| == 1 then pieces[0] else pieces[0] + [d] + JoinUnits(pieces[1..], d)
  }

  predicate DelimiterFree(pieces: seq<Units>, d: int) {
    forall i :: 0 <= i < |pieces| ==> d !in pieces[i]
  }

  /** Splitting and then joining gives the text back, and no piece holds a delimiter. */
  lemma {:induction false} JoinSplits(s: Units, d: int)
    ensures JoinUnits(Pieces(s, d), d) == s && DelimiterFree(Pieces(s, d), d)
    decreases |s|
  {
    hide FindUnit;
    var i := FindUnit(s, d);
    if i < |s| {
      var rest := Pieces(s[i + 1..], d);
      JoinSplits(s[i + 1..], d);
      assert Pieces(s, d) == [s[..i]] + rest;
      assert ([s[..i]] + rest)[1..] == rest;
      assert s == s[..i] + [d] + s[i + 1..];
    }
  }

  lemma {:induction false} FindUnitAfter(a: Units, c: int, b: Units)
    requires c !in a
    ensures FindUnit(a + [c] + b, c) == |a| && FindUnit(a, c) == |a|
  {
    if a == [] {
      assert a + [c] + b == [c] + b;
    } else {
      assert (a + [c] + b)[1..] == a[1..] + [c] + b;
      FindUnitAfter(a[1..], c, b);
    }
  }

  /** Joining and then splitting gives the pieces back: they are the only delimiter-free list that joins to the text. */
  lemma {:induction false} SplitJoins(pieces: seq<Units>, d: int)
    requires pieces != [] && DelimiterFree(pieces, d)
    ensures Pieces(JoinUnits(pieces, d), d) == pieces
    decreases |pieces|
  {
    var rest := JoinUnits(pieces[1..], d);
    FindUnitAfter(pieces[0], d, rest);
    if |pieces| > 1 {
      assert (pieces[0] + [d] + rest)[..|pieces[0]|] == pieces[0];
      assert (pieces[0] + [d] + rest)[|pieces[0]| + 1..] == rest;
      SplitJoins(pieces[1..], d);
    }
  }

  /** The loop condition of both splits: characters are left and the terminator is not reached. */
  lemma ContinuesIff(str: Units, len: int, at: nat)
    requires at <= |Extent(str, len)|
    ensures (len < 0 || at < len) && UnitAt(str, at) != NUL <==> at < |Extent(str, len)|
    ensures at < |Extent(str, len)| ==> str[at] == Extent(str, len)[at]
  {
    if at < |Extent(str, len)| {
      assert Extent(str, len)[at] in Extent(str, len);
    }
  }

  /** The narrow split: a start pointer and a size; a null string leaves the result as it was. */
  method SplitNarrow(str: Option<Units>, len: int, d: int, before: seq<Units>) returns (result: seq<Units>)
    ensures str.None? ==> result == before
    ensures str.Some? ==> result == before + Pieces(Extent(str.value, len), d)
  {
    hide Extent, Pieces, FindUnit;
    result := before;
    if str.None? {
      return;
    }
    var text := str.value;
    var start, size, at, left := 0, 0, 0, len;
    ghost var all := Extent(text, len);
    ContinuesIff(text, len, 0);
    while left != 0 && UnitAt(text, at) != NUL
      invariant 0 <= start <= at == start + size <= |all|
      invariant left == if len < 0 then len else len - at
      invariant left >= 0 || len < 0
      invariant left != 0 && UnitAt(text, at) != NUL <==> at < |all|
      invariant d !in all[start..at]
      invariant result + Pieces(all[start..], d) == before + Pieces(all, d)
      decreases |all| - at
    {
      ContinuesIff(text, len, at);
      if text[at] != d {
        size := size + 1;
        assert all[start..at + 1] == all[start..at] + [all[at]];
      } else {
        PiecesStep(all, start, at, d);
        assert text[start..start + size] == all[start..at];
        AppendFirst(result, all[start..at], Pieces(all[at + 1..], d));
        result := result + [text[start..start + size]];
        start := start + (size + 1);
        size := 0;
      }
      at := at + 1;
      if left > 0 {
        left := left - 1;
      }
      ContinuesIff(text, len, at);
    }
    assert all[start..at] == all[start..];
    PiecesLast(all, start, d);
    if size > 0 {
      assert text[start..start + size] == all[start..];
      result := result + [text[start..start + size]];
    } else {
      assert all[start..] == [];
      result := result + [[]];
    }
  }

  lemma AppendFirst(a: seq<Units>, x: Units, b: seq<Units>)
    ensures a + ([x] + b) == (a + [x]) + b
  {
  }

  lemma PiecesStep(s: Units, start: nat, at: nat, d: int)
    requires start <= at < |s| && s[at] == d && d !in s[start..at]
    ensures Pieces(s[start..], d) == [s[start..at]] + Pieces(s[at + 1..], d)
  {
    assert s[start..] == s[start..at] + [d] + s[at + 1..];
    FindUnitAfter(s[start..at], d, s[at + 1..]);
    assert s[start..][..at - start] == s[start..at];
    assert s[start..][at - start + 1..] == s[at + 1..];
  }

  lemma PiecesLast(s: Units, start: nat, d: int)
    requires start <= |s| && d !in s[start..]
    ensures Pieces(s[start..], d) == [s[start..]]
  {
    FindUnitAfter(s[start..], d, []);
    assert FindUnit(s[start..], d) == |s[start..]|;
  }

  // ----- the wide split keeps the low byte of each unit -----

  function LowByte(c: int): int {
    c % 256
  }

  function LowBytes(s: Units): (r: Units)
    ensures |r| == |s| && forall i :: 0 <= i < |s| ==> r[i] == LowByte(s[i])
  {
    seq(|s|, i requires 0 <= i < |s| => LowByte(s[i]))
  }

  function Narrowed(pieces: seq<Units>): (r: seq<Units>)
    ensures |r| == |pieces| && forall i :: 0 <= i < |pieces| ==> r[i] == LowBytes(pieces[i])
  {
    seq(|pieces|, i requires 0 <= i < |pieces| => LowBytes(pieces[i]))
  }

  method SplitWide(str: Option<Units>, len: int, d: int, before: seq<Units>) returns (result: seq<Units>)
    ensures str.None? ==> result == before
    ensures str.Some? ==> result == before + Narrowed(Pieces(Extent(str.value, len), d))
  {
    hide Extent, Pieces, FindUnit, LowBytes, Narrowed;
    result := before;
    if str.None? {
      return;
    }
    var text := str.value;
    var buffer: Units, at, left := [], 0, len;
    ghost var all := Extent(text, len);
    ghost var start := 0;
    ContinuesIff(text, len, 0);
    while left != 0 && UnitAt(text, at) != NUL
      invariant 0 <= start <= at <= |all|
      invariant left == if len < 0 then len else len - at
      invariant left >= 0 || len < 0
      invariant left != 0 && UnitAt(text, at) != NUL <==> at < |all|
      invariant d !in all[start..at] && buffer == LowBytes(all[start..at])
      invariant result + Narrowed(Pieces(all[start..], d)) == before + Narrowed(Pieces(all, d))
      decreases |all| - at
    {
      ContinuesIff(text, len, at);
      if text[at] != d {
        assert all[start..at + 1] == all[start..at] + [all[at]];
        buffer := buffer + [LowByte(text[at])];
      } else {
        PiecesStep(all, start, at, d);
        NarrowedStep(all[start..at], Pieces(all[at + 1..], d));
        AppendFirst(result, buffer, Narrowed(Pieces(all[at + 1..], d)));
        result := result + [buffer];
        buffer := [];
        start := at + 1;
      }
      at := at + 1;
      if left > 0 {
        left := left - 1;
      }
      ContinuesIff(text, len, at);
    }
    assert all[start..at] == all[start..];
    PiecesLast(all, start, d);
    result := result + [buffer];
  }

  lemma NarrowedStep(first: Units, rest: seq<Units>)
    ensures Narrowed([first] + rest) == [LowBytes(first)] + Narrowed(rest)
  {
  }

  predicate SingleByte(s: Units) {
    forall i :: 0 <= i < |s| ==> 0 <= s[i] < 256
  }

  lemma {:induction false} NarrowedJoins(pieces: seq<Units>, d: int)
    requires 0 <= d < 256
    ensures JoinUnits(Narrowed(pieces), d) == LowBytes(JoinUnits(pieces, d))
    decreases |pieces|
  {
    if |pieces| > 1 {
      assert Narrowed(pieces)[1..] == Narrowed(pieces[1..]);
      NarrowedJoins(pieces[1..], d);
    }
  }

  /** The wide pieces join back to the text, as the narrow ones do, exactly when every unit fits a byte. */
  lemma WideAgreesIff(s: Units, d: int)
    requires 0 <= d < 256
    ensures JoinUnits(Narrowed(Pieces(s, d)), d) == s <==> SingleByte(s)
    ensures SingleByte(s) ==> Narrowed(Pieces(s, d)) == Pieces(s, d)
  {
    JoinSplits(s, d);
    NarrowedJoins(Pieces(s, d), d);
    if SingleByte(s) {
      PiecesSingleByte(s, d);
    } else {
      var i :| 0 <= i < |s| && !(0 <= s[i] < 256);
      assert LowBytes(s)[i] != s[i];
    }
  }

  lemma {:induction false} PiecesSingleByte(s: Units, d: int)
    requires SingleByte(s)
    ensures Narrowed(Pieces(s, d)) == Pieces(s, d)
    decreases |s|
  {
    var i := FindUnit(s, d);
    assert LowBytes(s[..i]) == s[..i];
    if i < |s| {
      PiecesSingleByte(s[i + 1..], d);
      NarrowedStep(s[..i], Pieces(s[i + 1..], d));
    } else {
      assert LowBytes(s) == s;
      assert Narrowed([s]) == [LowBytes(s)];
    }
  }
}
