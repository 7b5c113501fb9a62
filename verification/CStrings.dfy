/** NUL-terminated strings in fixed buffers, and the `string.h` functions the source uses. */
module CStrings {
  import opened Memory

  /** The buffer holds the string `s`: its characters and then the terminator. */
  ghost predicate Text<T>(buffer: array<T>, s: seq<T>, nul: T)
    reads buffer
  {
    |s| < buffer.Length && buffer[..|s|] == s && buffer[|s|] == nul && nul !in s
  }

  lemma EmptyText<T>(buffer: array<T>, nul: T)
    requires buffer.Length > 0 && buffer[0] == nul
    ensures Text(buffer, [], nul)
  {
  }

  /** The part of `s` in front of its first terminator. */
  function UpTo<T(==)>(s: seq<T>, nul: T): (text: seq<T>)
    ensures text <= s && nul !in text
    ensures text == s || (|text| < |s| && s[|text|] == nul)
  {
    if s == [] || s[0] == nul then [] else [s[0]] + UpTo(s[1..], nul)
  }

  lemma {:induction false} UpToAll<T>(s: seq<T>, nul: T)
    requires nul !in s
    ensures UpTo(s, nul) == s
  {
    if s != [] {
      UpToAll(s[1..], nul);
    }
  }

  /** `strlen`. */
  method StrLen<T(==)>(buffer: array<T>, nul: T, ghost s: seq<T>) returns (n: nat)
    requires Text(buffer, s, nul)
    ensures n == |s|
  {
    assert forall i :: 0 <= i < |s| ==> buffer[i] == s[i] && s[i] in s;
    n := 0;
    while buffer[n] != nul
      invariant n <= |s|
      decreases |s| - n
    {
      n := n + 1;
    }
  }

  /** `strncat(buffer, source, |source|)`: appends `source` up to its first terminator. */
  method StrNCat<T(==)>(buffer: array<T>, source: seq<T>, nul: T, ghost s: seq<T>)
    requires Text(buffer, s, nul)
    requires |s| + |UpTo(source, nul)| < buffer.Length
    modifies buffer
    ensures Text(buffer, s + UpTo(source, nul), nul)
  {
    var at := StrLen(buffer, nul, s);
    ghost var text := UpTo(source, nul);
    var i := 0;
    while i < |source| && source[i] != nul
      invariant i <= |text|
      invariant buffer[..at + i] == s + text[..i]
    {
      assert i < |text|;
      buffer[at + i] := source[i];
      i := i + 1;
    }
    assert i == |text|;
    assert text[..i] == text;
    buffer[at + i] := nul;
  }

  /** `sprintf(buffer, "%s", text)`. */
  method PrintInto<T(==)>(buffer: array<T>, text: seq<T>, nul: T)
    requires |text| < buffer.Length && nul !in text
    modifies buffer
    ensures Text(buffer, text, nul)
  {
    for i := 0 to |text|
      invariant buffer[..i] == text[..i]
    {
      buffer[i] := text[i];
    }
    assert text[..|text|] == text;
    buffer[|text|] := nul;
  }

  /** `realloc(buffer, strlen(buffer) + 1)`. */
  method ShrinkToFit<T(==,0)>(buffer: array<T>, nul: T, ghost s: seq<T>) returns (fitted: array<T>)
    requires Text(buffer, s, nul)
    ensures fresh(fitted) && fitted.Length == |s| + 1 && Text(fitted, s, nul)
  {
    var n := StrLen(buffer, nul, s);
    fitted := new T[n + 1];
    for i := 0 to n + 1
      invariant fitted[..i] == buffer[..i]
    {
      fitted[i] := buffer[i];
    }
    assert fitted[..n] == fitted[..n + 1][..n] && buffer[..n] == buffer[..n + 1][..n];
    assert fitted[..n + 1][n] == buffer[..n + 1][n];
  }

  /** `strcpy(buffer + strlen(buffer), source)`. What stands behind the new terminator is kept. */
  method AppendAtEnd<T(==)>(buffer: array<T>, source: seq<T>, nul: T, ghost s: seq<T>)
    requires Text(buffer, s, nul)
    requires nul !in source && |s| + |source| < buffer.Length
    modifies buffer
    ensures Text(buffer, s + source, nul)
    ensures forall i :: |s| + |source| < i < buffer.Length ==> buffer[i] == old(buffer[i])
  {
    var at := StrLen(buffer, nul, s);
    MemCpy(buffer, at, source + [nul]);
    assert buffer[..at + |source|] == s + source;
  }

  /** What a piece copied to position `at` without a terminator is followed by: what memory held
      there already, up to the first terminator. Copying nothing leaves the old terminator. */
  function Stray<T(==)>(garbage: seq<T>, at: nat, piece: seq<T>, nul: T): (stray: seq<T>) {
    if piece == [] || at + |piece| > |garbage| then [] else UpTo(garbage[at + |piece|..], nul)
  }

  lemma StrayAt<T>(garbage: seq<T>, k: nat, nul: T)
    requires k <= |garbage| && k + |UpTo(garbage[k..], nul)| < |garbage|
    ensures var stray := UpTo(garbage[k..], nul);
            garbage[k..k + |stray|] == stray && garbage[k + |stray|] == nul
  {
    var stray := UpTo(garbage[k..], nul);
    assert garbage[k..][|stray|] == garbage[k + |stray|];
    assert garbage[k..k + |stray|] == garbage[k..][..|stray|];
  }

  /** A copy without a terminator, made up to position `k`, runs into what stood there before. */
  lemma RunsIntoGarbage<T>(buffer: array<T>, text: seq<T>, nul: T, garbage: seq<T>)
    requires |garbage| == buffer.Length && |text| <= buffer.Length
    requires buffer[..|text|] == text && buffer[|text|..] == garbage[|text|..] && nul !in text
    requires |text| + |UpTo(garbage[|text|..], nul)| < buffer.Length
    ensures Text(buffer, text + UpTo(garbage[|text|..], nul), nul)
  {
    var k := |text|;
    StrayAt(garbage, k, nul);
    var end := k + |UpTo(garbage[k..], nul)|;
    assert buffer[k..][..end - k] == buffer[k..end] && garbage[k..][..end - k] == garbage[k..end];
    assert buffer[..end] == buffer[..k] + buffer[k..end];
    assert buffer[k..][end - k] == buffer[end] && garbage[k..][end - k] == garbage[end];
  }

  /** `strncpy(buffer + strlen(buffer), piece, |piece|)`, which writes no terminator. Behind the
      text the buffer still holds `garbage`. */
  method CopyAtEnd<T(==)>(buffer: array<T>, piece: seq<T>, nul: T, ghost s: seq<T>, ghost garbage: seq<T>)
    requires Text(buffer, s, nul) && |garbage| == buffer.Length
    requires forall i :: |s| < i < buffer.Length ==> buffer[i] == garbage[i]
    requires nul !in piece && |s + piece + Stray(garbage, |s|, piece, nul)| < buffer.Length
    modifies buffer
    ensures Text(buffer, s + piece + Stray(garbage, |s|, piece, nul), nul)
    ensures forall i :: |s + piece + Stray(garbage, |s|, piece, nul)| < i < buffer.Length ==> buffer[i] == garbage[i]
  {
    hide UpTo;
    var at := StrLen(buffer, nul, s);
    MemCpy(buffer, at, piece);
    assert buffer[..at + |piece|] == s + piece;
    if piece != [] {
      assert buffer[at + |piece|..] == garbage[at + |piece|..];
      RunsIntoGarbage(buffer, s + piece, nul, garbage);
    }
  }
}
