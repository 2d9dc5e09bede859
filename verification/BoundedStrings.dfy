/** Returning a string into a caller's buffer: copyString, restrictLength, and the length a caller retries with. */
module BoundedStrings {
  import opened OdbcTypes

  const MAX_LEN: int := TWO_63 - 1
  const MAX_INTEGER: int := TWO_31 - 1
  const MAX_SMALLINT: int := 0x7FFF

  // ----- restrictLength -----

  /** restrictLength to a signed type of the given range, from a wider type. */
  function Restrict(n: int, max: int): int {
    if n >= 0 then Min(max, n) else Max(-max - 1, n)
  }

  /** The result is in range, is the number itself exactly when that is in range, and keeps the order. */
  lemma RestrictIsNearest(n: int, m: int, max: int)
    requires 0 <= max
    ensures -max - 1 <= Restrict(n, max) <= max
    ensures Restrict(n, max) == n <==> -max - 1 <= n <= max
    ensures n <= m ==> Restrict(n, max) <= Restrict(m, max)
  {
  }

  /** Restricting to a wide type and then to a narrow one is restricting to the narrow one. */
  lemma RestrictTwice(n: int, wide: int, narrow: int)
    requires 0 <= narrow <= wide
    ensures Restrict(Restrict(n, wide), narrow) == Restrict(n, narrow)
  {
  }

  // ----- copyString -----

  /** strlen: the characters before the first terminator. */
  function StrLen<T(==)>(s: seq<T>, nul: T): (r: nat)
    ensures r <= |s| && nul !in s[..r] && (r < |s| ==> s[r] == nul)
    ensures r == |s| <==> nul !in s
  {
    if s == [] || s[0] == nul then 0
    else
      assert s[..1 + StrLen(s[1..], nul)] == [s[0]] + s[1..][..StrLen(s[1..], nul)];
      1 + StrLen(s[1..], nul)
  }

  /** How many characters of a text of length `len` go into a buffer of `size` characters. */
  function Kept(len: nat, size: int): int {
    Min(Restrict(len, MAX_LEN), size - 1)
  }

  /** The buffer afterwards: the kept characters, a terminator, and the rest as it was. */
  function Filled<T>(buffer: seq<T>, chars: seq<T>, nul: T, size: int): seq<T>
    requires size <= |buffer|
  {
    var k := Kept(|chars|, size);
    if k < 0 then buffer else chars[..k] + [nul] + buffer[k + 1..]
  }

  /** copyString; None stands for a null source, for which only the length is set. */
  method CopyString<T>(chars: Option<seq<T>>, nul: T, outStr: array<T>, outMaxLen: int)
    returns (truncated: bool, totalLen: int)
    requires outMaxLen <= outStr.Length
    modifies outStr
    ensures chars.None? ==> !truncated && totalLen == SQL_NULL_DATA && outStr[..] == old(outStr[..])
    ensures chars.Some? ==>
      && outStr[..] == Filled(old(outStr[..]), chars.value, nul, outMaxLen)
      && totalLen == Restrict(|chars.value|, MAX_LEN)
      && (truncated <==> totalLen >= outMaxLen)
  {
    if chars.None? {
      return false, SQL_NULL_DATA;
    }
    var maxLen := Restrict(|chars.value|, MAX_LEN);
    totalLen := maxLen;
    var room := outMaxLen - 1;
    if room >= maxLen {
      CopyTerminated(chars.value, nul, outStr, maxLen);
      truncated := false;
    } else if room >= 0 {
      CopyTerminated(chars.value, nul, outStr, room);
      truncated := true;
    } else {
      truncated := true;
    }
  }

  /** memcpy of `size` characters and memset of one terminator. */
  method CopyTerminated<T>(chars: seq<T>, nul: T, outStr: array<T>, size: nat)
    requires size <= |chars| && size < outStr.Length
    modifies outStr
    ensures outStr[..] == chars[..size] + [nul] + old(outStr[size + 1..])
  {
    var i := 0;
    while i < size
      invariant 0 <= i <= size
      invariant outStr[..i] == chars[..i]
      invariant outStr[i..] == old(outStr[i..])
    {
      outStr[i] := chars[i];
      i := i + 1;
    }
    outStr[size] := nul;
  }

  /** The string a C caller finds in the buffer. */
  function Text<T(==)>(buffer: seq<T>, nul: T): seq<T> {
    buffer[..StrLen(buffer, nul)]
  }

  lemma {:induction false} StrLenOfTerminated<T>(s: seq<T>, nul: T, rest: seq<T>)
    requires nul !in s
    ensures StrLen(s + [nul] + rest, nul) == |s|
  {
    if s == [] {
      assert s + [nul] + rest == [nul] + rest;
    } else {
      assert (s + [nul] + rest)[1..] == s[1..] + [nul] + rest;
      StrLenOfTerminated(s[1..], nul, rest);
    }
  }

  /**
   * The caller reads the longest prefix that leaves room for a terminator, and nothing outside the stated size
   * changes; with no room at all nothing is written.
   */
  lemma ReadsLongestPrefix<T>(buffer: seq<T>, chars: seq<T>, nul: T, size: int)
    requires size <= |buffer| && nul !in chars && |chars| <= MAX_LEN
    ensures var r := Filled(buffer, chars, nul, size);
            && |r| == |buffer| && r[Max(size, 0)..] == buffer[Max(size, 0)..]
            && (size <= 0 ==> r == buffer)
            && (size >= 1 ==> Text(r, nul) == chars[..Min(|chars|, size - 1)])
  {
    if size >= 1 {
      var k := Kept(|chars|, size);
      StrLenOfTerminated(chars[..k], nul, buffer[k + 1..]);
      assert Filled(buffer, chars, nul, size)[..k] == chars[..k];
    }
  }

  // ----- getStringValue -----

  /** A text the driver returns, with its length given or left to its terminator. */
  function Length<T(==)>(text: seq<T>, terminated: bool, nul: T): nat {
    if terminated then StrLen(text, nul) else |text|
  }

  /** The length reported through a SQLINTEGER; a call without a buffer counts up to the terminator. */
  function Reported<T(==)>(text: seq<T>, terminated: bool, nul: T, hasBuffer: bool): int {
    Restrict(if hasBuffer then Restrict(Length(text, terminated, nul), MAX_LEN) else StrLen(text, nul), MAX_INTEGER)
  }

  function TruncationCode<T(==)>(text: seq<T>, terminated: bool, nul: T, size: int): Code {
    if Restrict(Length(text, terminated, nul), MAX_LEN) >= size then SuccessWithInfo else Success
  }

  method GetStringValue<T(==)>(text: seq<T>, terminated: bool, nul: T, result: array?<T>, bufferLength: int)
    returns (code: Code, reported: int)
    requires result != null ==> bufferLength <= result.Length
    modifies result
    ensures reported == Reported(text, terminated, nul, result != null)
    ensures code == if result == null then Success else TruncationCode(text, terminated, nul, bufferLength)
    ensures result != null ==>
      result[..] == Filled(old(result[..]), text[..Length(text, terminated, nul)], nul, bufferLength)
  {
    code := Success;
    if result != null {
      var len := if terminated then StrLen(text, nul) else |text|;
      var truncated, stringLen := CopyString(Some(text[..len]), nul, result, bufferLength);
      if truncated {
        code := SuccessWithInfo;
      }
      reported := Restrict(stringLen, MAX_INTEGER);
    } else {
      reported := Restrict(StrLen(text, nul), MAX_INTEGER);
    }
  }

  /**
   * The reported length is the same with and without a buffer exactly when the text has no early terminator, or has
   * it so late that both lengths are clamped.
   */
  lemma ReportIndependentIff<T>(text: seq<T>, terminated: bool, nul: T)
    ensures Reported(text, terminated, nul, true) == Reported(text, terminated, nul, false)
       <==> terminated || nul !in text || StrLen(text, nul) >= 0x7FFF_FFFF
  {
    RestrictTwice(Length(text, terminated, nul), MAX_LEN, MAX_INTEGER);
    if nul !in text {
      assert StrLen(text, nul) == |text|;
    }
  }

  /** A buffer sized by a length clamped to some range, plus one, is enough exactly when nothing was clamped. */
  lemma ClampedRetryIff<T>(text: seq<T>, terminated: bool, nul: T, buffer: seq<T>, max: int)
    requires terminated || nul !in text
    requires |text| <= MAX_LEN && 0 <= max
    requires |buffer| == Restrict(Length(text, terminated, nul), max) + 1
    ensures var len := Length(text, terminated, nul);
            && (TruncationCode(text, terminated, nul, |buffer|) == Success <==> len <= max)
            && (Text(Filled(buffer, text[..len], nul, |buffer|), nul) == text[..len] <==> len <= max)
  {
    var len := Length(text, terminated, nul);
    assert StrLen(text, nul) == len;
    assert nul !in text[..len];
    ReadsLongestPrefix(buffer, text[..len], nul, |buffer|);
  }

  /**
   * A retry with the length reported by any first call, plus one, is complete exactly when the length fits a
   * SQLINTEGER.
   */
  lemma RetryCompletesIff<T>(text: seq<T>, terminated: bool, nul: T, hadBuffer: bool, buffer: seq<T>)
    requires terminated || nul !in text
    requires |text| <= MAX_LEN
    requires |buffer| == Reported(text, terminated, nul, hadBuffer) + 1
    ensures var len := Length(text, terminated, nul);
            && (TruncationCode(text, terminated, nul, |buffer|) == Success <==> len <= 0x7FFF_FFFF)
            && (Text(Filled(buffer, text[..len], nul, |buffer|), nul) == text[..len] <==> len <= 0x7FFF_FFFF)
  {
    assert StrLen(text, nul) == Length(text, terminated, nul);
    ClampedRetryIff(text, terminated, nul, buffer, MAX_INTEGER);
  }

  // ----- the output string of connectT -----

  /** The SQLSMALLINT length of the output connection string, clamped from the SQLINTEGER of getStringValue. */
  function ConnStrLen<T(==)>(text: seq<T>, nul: T): int {
    Restrict(Reported(text, false, nul, true), MAX_SMALLINT)
  }

  /** Clamping to 64, 32 and then 16 bits is clamping once, and terminators inside the string do not count. */
  lemma ConnStrLenIs<T>(text: seq<T>, nul: T)
    ensures ConnStrLen(text, nul) == if |text| > 32767 then 32767 else |text|
  {
    RestrictTwice(|text|, MAX_LEN, MAX_INTEGER);
    RestrictTwice(|text|, MAX_INTEGER, MAX_SMALLINT);
  }

  /**
   * A connect retried with the length it reported, plus one, returns the whole string exactly when the string has at
   * most 32767 characters.
   */
  lemma ConnectRetryCompletesIff<T>(text: seq<T>, nul: T, buffer: seq<T>)
    requires nul !in text && |text| <= MAX_LEN
    requires |buffer| == ConnStrLen(text, nul) + 1
    ensures TruncationCode(text, false, nul, |buffer|) == Success <==> |text| <= 32767
    ensures Text(Filled(buffer, text, nul, |buffer|), nul) == text <==> |text| <= 32767
  {
    ConnStrLenIs(text, nul);
    ClampedRetryIff(text, false, nul, buffer, MAX_SMALLINT);
    assert text[..|text|] == text;
  }
}
