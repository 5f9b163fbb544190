/**
  Character classes and small string operations the converter relies on:
  the .NET notion of white space (shared by `String.TrimStart()` and the
  regular-expression class `\s`), hexadecimal digits, scanning, splitting
  on a separator and joining with one.
 */
module Text {

  import opened Wrappers

  /** .NET `Char.IsWhiteSpace`: U+0009..U+000D, U+0085 and the Unicode
      categories Zs, Zl and Zp. The regular-expression class `\s` denotes
      the same set. */
  predicate IsWhiteSpace(c: char) {
    ('\U{0009}' <= c <= '\U{000D}') || c == '\U{0085}'
    || c == '\U{0020}' || c == '\U{00A0}' || c == '\U{1680}'
    || ('\U{2000}' <= c <= '\U{200A}')
    || c == '\U{2028}' || c == '\U{2029}'
    || c == '\U{202F}' || c == '\U{205F}' || c == '\U{3000}'
  }

  /** The regular-expression class `[0-9a-fA-F]`. */
  predicate IsHexDigit(c: char) {
    ('0' <= c <= '9') || ('a' <= c <= 'f') || ('A' <= c <= 'F')
  }

  /** The regular-expression class `[0-9a-fA-F, ]` used for byte lists. */
  predicate IsHexListChar(c: char) {
    IsHexDigit(c) || c == ',' || c == ' '
  }

  /** The character classes the recognisers scan runs of. */
  datatype CharClass = WhiteSpaceClass | HexDigitClass | HexListClass | NotQuoteClass

  predicate InClass(cl: CharClass, c: char) {
    match cl
    case WhiteSpaceClass => IsWhiteSpace(c)
    case HexDigitClass => IsHexDigit(c)
    case HexListClass => IsHexListChar(c)
    case NotQuoteClass => c != '"'
  }

  predicate AllWhiteSpace(s: string) {
    forall k :: 0 <= k < |s| ==> IsWhiteSpace(s[k])
  }

  predicate AllHexDigits(s: string) {
    forall k :: 0 <= k < |s| ==> IsHexDigit(s[k])
  }

  predicate AllHexListChars(s: string) {
    forall k :: 0 <= k < |s| ==> IsHexListChar(s[k])
  }

  /** The end of the longest run of characters of class `cl` that starts at `i`. */
  function Span(s: string, i: nat, cl: CharClass): (r: nat)
    requires i <= |s|
    ensures i <= r <= |s|
    ensures r == |s| || !InClass(cl, s[r])
    decreases |s| - i
  {
    if i == |s| || !InClass(cl, s[i]) then i else Span(s, i + 1, cl)
  }

  /** Every character the span covers is of its class. */
  lemma {:induction false} SpanRun(s: string, i: nat, cl: CharClass)
    requires i <= |s|
    ensures forall k :: i <= k < Span(s, i, cl) ==> InClass(cl, s[k])
    decreases |s| - i
  {
    if i < |s| && InClass(cl, s[i]) {
      SpanRun(s, i + 1, cl);
    }
  }

  /** The first position at or after `from` holding `c`, if any. */
  function IndexOf(s: string, c: char, from: nat): (r: Option<nat>)
    requires from <= |s|
    ensures r.Some? ==> from <= r.value < |s| && s[r.value] == c
    decreases |s| - from
  {
    if from == |s| then None
    else if s[from] == c then Some(from)
    else IndexOf(s, c, from + 1)
  }

  /** The position `IndexOf` finds is the first one: no `c` lies between `from` and it. */
  lemma {:induction false} IndexOfFirst(s: string, c: char, from: nat)
    requires from <= |s|
    ensures IndexOf(s, c, from).Some? ==> forall k :: from <= k < IndexOf(s, c, from).value ==> s[k] != c
    ensures IndexOf(s, c, from).None? ==> forall k :: from <= k < |s| ==> s[k] != c
    decreases |s| - from
  {
    if from < |s| && s[from] != c {
      IndexOfFirst(s, c, from + 1);
    }
  }

  /** With `from` at 0, the text before the position found holds no `c`, and none at all when nothing is found. */
  lemma IndexOfNone(s: string, c: char)
    ensures IndexOf(s, c, 0).Some? ==> c !in s[..IndexOf(s, c, 0).value]
    ensures IndexOf(s, c, 0).None? ==> c !in s
  {
    IndexOfFirst(s, c, 0);
    match IndexOf(s, c, 0)
    case Some(i) =>
      assert forall k :: 0 <= k < i ==> s[..i][k] == s[k];
    case None =>
  }

  /** A run that ends where the class stops holding is the span. */
  lemma {:induction false} SpanExact(s: string, i: nat, j: nat, cl: CharClass)
    requires i <= j <= |s|
    requires forall k :: i <= k < j ==> InClass(cl, s[k])
    requires j == |s| || !InClass(cl, s[j])
    ensures Span(s, i, cl) == j
    decreases j - i
  {
    if i < j {
      SpanExact(s, i + 1, j, cl);
    }
  }

  /** .NET `String.TrimStart()`: drops the leading white space. */
  function TrimStart(s: string): (r: string)
    ensures |r| <= |s|
  {
    s[Span(s, 0, WhiteSpaceClass)..]
  }

  /** Trimming white space off `ws + rest` leaves `rest` when `rest` starts with none. */
  lemma TrimStartAfter(ws: string, rest: string)
    requires AllWhiteSpace(ws)
    requires rest == [] || !IsWhiteSpace(rest[0])
    ensures TrimStart(ws + rest) == rest
  {
    var s := ws + rest;
    if |ws| < |s| { assert s[|ws|] == rest[0]; }
    SpanExact(s, 0, |ws|, WhiteSpaceClass);
    assert s[|ws|..] == rest;
  }

  /** A string is its leading white space followed by what `TrimStart` leaves. */
  lemma TrimStartSplit(s: string) returns (ws: string)
    ensures AllWhiteSpace(ws) && s == ws + TrimStart(s)
    ensures TrimStart(s) == [] || !IsWhiteSpace(TrimStart(s)[0])
  {
    var n := Span(s, 0, WhiteSpaceClass);
    SpanRun(s, 0, WhiteSpaceClass);
    ws := s[..n];
    assert s == s[..n] + s[n..];
  }

  predicate NoWhiteSpace(s: string) {
    forall k :: 0 <= k < |s| ==> !IsWhiteSpace(s[k])
  }

  /** `Regex.Replace(s, @"\s", "")`: every white-space character deleted. */
  function RemoveWhiteSpace(s: string): (r: string)
    ensures NoWhiteSpace(r)
    ensures |r| <= |s|
    ensures NoWhiteSpace(s) ==> r == s
  {
    if s == [] then []
    else if IsWhiteSpace(s[0]) then RemoveWhiteSpace(s[1..])
    else [s[0]] + RemoveWhiteSpace(s[1..])
  }

  /** Deleting white space works piece by piece: that of a concatenation is the concatenation of theirs. */
  lemma {:induction false} RemoveWhiteSpaceAppend(a: string, b: string)
    ensures RemoveWhiteSpace(a + b) == RemoveWhiteSpace(a) + RemoveWhiteSpace(b)
  {
    if a == [] {
      assert a + b == b;
    } else {
      assert (a + b)[0] == a[0] && (a + b)[1..] == a[1..] + b;
      RemoveWhiteSpaceAppend(a[1..], b);
      if !IsWhiteSpace(a[0]) {
        AppendAssoc([a[0]], RemoveWhiteSpace(a[1..]), RemoveWhiteSpace(b));
      }
    }
  }

  /** Text that is only white space is deleted entirely. */
  lemma {:induction false} RemoveWhiteSpaceOfWhiteSpace(s: string)
    ensures AllWhiteSpace(s) ==> RemoveWhiteSpace(s) == []
  {
    if s != [] && AllWhiteSpace(s) {
      assert IsWhiteSpace(s[0]);
      RemoveWhiteSpaceOfWhiteSpace(s[1..]);
    }
  }

  lemma AppendAssoc(a: string, b: string, c: string)
    ensures a + (b + c) == (a + b) + c
  {
  }

  /** Deleting white space keeps only characters that were there. */
  lemma {:induction false} RemoveWhiteSpaceFrom(s: string)
    ensures forall k :: 0 <= k < |RemoveWhiteSpace(s)| ==> RemoveWhiteSpace(s)[k] in s
  {
    if s != [] {
      RemoveWhiteSpaceFrom(s[1..]);
      var r := RemoveWhiteSpace(s[1..]);
      assert forall k :: 0 <= k < |r| ==> r[k] in s[1..] ==> r[k] in s;
    }
  }

  /** `String.Replace(char, char)`: every `a` becomes `b`, nothing else changes. */
  function ReplaceChar(s: string, a: char, b: char): (r: string)
    ensures |r| == |s|
    ensures forall k :: 0 <= k < |s| ==> r[k] == if s[k] == a then b else s[k]
  {
    if s == [] then [] else [if s[0] == a then b else s[0]] + ReplaceChar(s[1..], a, b)
  }

  /** The pieces joined back together, `sep` between neighbours. */
  function Join(pieces: seq<string>, sep: char): (r: string)
    ensures pieces != [] ==> |r| >= |pieces| - 1
  {
    if pieces == [] then []
    else if |pieces| == 1 then pieces[0]
    else pieces[0] + ([sep] + Join(pieces[1..], sep))
  }

  /** Joining text without white space, with a separator that is not white space, gives none. */
  lemma {:induction false} JoinNoWhiteSpace(pieces: seq<string>, sep: char)
    requires !IsWhiteSpace(sep)
    requires forall k :: 0 <= k < |pieces| ==> NoWhiteSpace(pieces[k])
    ensures NoWhiteSpace(Join(pieces, sep))
  {
    if |pieces| > 1 {
      JoinNoWhiteSpace(pieces[1..], sep);
      var t := Join(pieces[1..], sep);
      assert forall k :: 0 <= k < |t| ==> ([sep] + t)[k + 1] == t[k];
    }
  }

  /** Every character of a piece occurs in the joined text. */
  lemma {:induction false} JoinContains(pieces: seq<string>, sep: char, k: nat, i: nat)
    requires k < |pieces| && i < |pieces[k]|
    ensures pieces[k][i] in Join(pieces, sep)
  {
    if |pieces| > 1 {
      if k == 0 {
        assert Join(pieces, sep)[i] == pieces[0][i];
      } else {
        JoinContains(pieces[1..], sep, k - 1, i);
        var t := Join(pieces[1..], sep);
        assert pieces[k][i] in t;
        assert forall c :: c in t ==> c in [sep] + t;
      }
    }
  }

  /** Replacing the separator of joined pieces that do not hold it changes only the separator. */
  lemma {:induction false} ReplaceCharJoin(pieces: seq<string>, a: char, b: char)
    requires forall k :: 0 <= k < |pieces| ==> a !in pieces[k]
    ensures ReplaceChar(Join(pieces, a), a, b) == Join(pieces, b)
  {
    if |pieces| == 1 {
      assert a !in pieces[0];
    } else if |pieces| > 1 {
      ReplaceCharJoin(pieces[1..], a, b);
      ReplaceCharAppend(pieces[0], [a] + Join(pieces[1..], a), a, b);
      ReplaceCharAppend([a], Join(pieces[1..], a), a, b);
      assert a !in pieces[0];
    }
  }

  /** Replacing works character by character. */
  lemma ReplaceCharAppend(x: string, y: string, a: char, b: char)
    ensures ReplaceChar(x + y, a, b) == ReplaceChar(x, a, b) + ReplaceChar(y, a, b)
  {
    var l, r := ReplaceChar(x + y, a, b), ReplaceChar(x, a, b) + ReplaceChar(y, a, b);
    assert forall k :: 0 <= k < |l| ==> l[k] == r[k];
  }

  /** .NET `String.Split(char)`: the maximal separator-free pieces, empty ones included. */
  function Split(s: string, sep: char): (r: seq<string>)
    ensures |r| >= 1
    ensures forall k :: 0 <= k < |r| ==> sep !in r[k]
    ensures Join(r, sep) == s
    decreases |s|
  {
    IndexOfNone(s, sep);
    match IndexOf(s, sep, 0)
    case None =>
      [s]
    case Some(i) =>
      var rest := Split(s[i + 1..], sep);
      SplitAt(s, i);
      [s[..i]] + rest
  }

  /** Splitting undoes joining when no piece holds the separator. */
  lemma {:induction false} SplitJoin(pieces: seq<string>, sep: char)
    requires pieces != []
    requires forall k :: 0 <= k < |pieces| ==> sep !in pieces[k]
    ensures Split(Join(pieces, sep), sep) == pieces
  {
    if |pieces| == 1 {
      var s := pieces[0];
      IndexOfNone(s, sep);
    } else {
      var p := pieces[0];
      var tail := Join(pieces[1..], sep);
      var s := p + ([sep] + tail);
      IndexOfAfterPrefix(p, sep, tail);
      AppendConsSplit(p, sep, tail);
      SplitJoin(pieces[1..], sep);
      assert [p] + pieces[1..] == pieces;
    }
  }

  /** In `p + [c] + t`, with no `c` in `p`, the first `c` is the one after `p`. */
  lemma IndexOfAfterPrefix(p: string, c: char, t: string)
    requires c !in p
    ensures IndexOf(p + ([c] + t), c, 0) == Some(|p|)
  {
    var s := p + ([c] + t);
    AppendConsSplit(p, c, t);
    IndexOfFirst(s, c, 0);
    assert forall k :: 0 <= k < |p| ==> s[k] == p[k];
  }

  // Small facts about taking strings apart, kept separate so that each
  // proof that needs one pays only for that one.

  lemma ConsSplit(c: char, x: string)
    ensures ([c] + x)[0] == c && ([c] + x)[1..] == x
  {
  }

  lemma AppendSplit(p: string, x: string)
    ensures (p + x)[..|p|] == p && (p + x)[|p|..] == x
  {
  }

  lemma AppendConsSplit(p: string, c: char, x: string)
    ensures (p + ([c] + x))[..|p|] == p
    ensures (p + ([c] + x))[|p|] == c
    ensures (p + ([c] + x))[|p| + 1..] == x
  {
    assert (p + ([c] + x))[|p| + 1..] == x;
  }

  lemma SplitAt(s: string, i: nat)
    requires i < |s|
    ensures s == s[..i] + ([s[i]] + s[i + 1..])
  {
  }

  lemma SplitHead(s: string)
    requires s != []
    ensures s == [s[0]] + s[1..]
  {
  }

  /** A string whose character at `i` is `c`, taken apart there. */
  lemma SplitAtChar(s: string, i: nat, c: char)
    requires i < |s| && s[i] == c
    ensures s == s[..i] + ([c] + s[i + 1..])
  {
    SplitAt(s, i);
  }

  /** The value of a hexadecimal digit. */
  function HexValue(c: char): (r: nat)
    requires IsHexDigit(c)
    ensures r < 16
  {
    if '0' <= c <= '9' then c as nat - '0' as nat
    else if 'a' <= c <= 'f' then c as nat - 'a' as nat + 10
    else c as nat - 'A' as nat + 10
  }

  /** The lower-case digit of a value below 16. */
  function HexChar(v: nat): (c: char)
    requires v < 16
    ensures IsHexDigit(c) && HexValue(c) == v
  {
    if v < 10 then ('0' as nat + v) as char else ('a' as nat + v - 10) as char
  }

  /** The unsigned number a string of hexadecimal digits denotes (leading zeros allowed). */
  function HexNumber(s: string): (r: nat)
    requires AllHexDigits(s)
    decreases |s|
  {
    if s == [] then 0 else HexNumber(s[..|s| - 1]) * 16 + HexValue(s[|s| - 1])
  }

}
