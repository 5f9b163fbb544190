/**
  Logical-line assembly. A `.reg` export wraps long byte lists: a physical
  line that ends in a backslash continues on the next one, which is
  indented. The converter strips every trailing backslash, appends the next
  line without its leading white space, and repeats while the result still
  ends in a backslash. When the input runs out first, the line is kept as it
  stands, still ending in a backslash.
 */
module Continuation {

  import opened Text

  /** `line.EndsWith(@"\")`. */
  predicate EndsWithBackslash(line: string) {
    |line| > 0 && line[|line| - 1] == '\\'
  }

  /** Where the run of backslashes that ends at position `n` of `line` starts. */
  function BackslashRunStart(line: string, n: nat): (m: nat)
    requires n <= |line|
    ensures m <= n && (m == 0 || line[m - 1] != '\\')
    decreases n
  {
    if n > 0 && line[n - 1] == '\\' then BackslashRunStart(line, n - 1) else n
  }

  /** `line.TrimEnd('\\')`: all trailing backslashes removed. */
  function TrimEndBackslashes(line: string): (r: string)
    ensures r <= line && !EndsWithBackslash(r)
    ensures !EndsWithBackslash(line) ==> r == line
  {
    line[..BackslashRunStart(line, |line|)]
  }

  /** What `BackslashRunStart` skips is backslashes only. */
  lemma {:induction false} BackslashRunAll(line: string, n: nat)
    requires n <= |line|
    ensures forall k :: BackslashRunStart(line, n) <= k < n ==> line[k] == '\\'
    decreases n
  {
    if n > 0 && line[n - 1] == '\\' {
      BackslashRunAll(line, n - 1);
    }
  }

  /** What `TrimEndBackslashes` removes is a run of backslashes at the end. */
  lemma TrimEndBackslashesPrefix(line: string)
    ensures forall k :: |TrimEndBackslashes(line)| <= k < |line| ==> line[k] == '\\'
  {
    BackslashRunAll(line, |line|);
  }

  /**
    A continued line joined with the next one: its trailing backslashes
    dropped, the next line's indentation too. Joining adds nothing of its
    own: the result is no longer than the two lines together.
   */
  function Continue(line: string, next: string): (r: string)
    ensures |TrimStart(next)| <= |r| <= |line| + |next|
  {
    TrimEndBackslashes(line) + TrimStart(next)
  }

  /**
    The logical line that starts with `line` when `rest` are the physical
    lines still unread, together with how many of them it takes up.
   */
  function Assemble(line: string, rest: seq<string>): (r: (string, nat))
    ensures r.1 <= |rest|
    decreases |rest|
  {
    if !EndsWithBackslash(line) || rest == [] then (line, 0)
    else
      var r := Assemble(Continue(line, rest[0]), rest[1..]);
      (r.0, r.1 + 1)
  }

  /**
    The logical lines of a whole input, in order. Every logical line takes
    up at least one physical line, and some input gives some line.
   */
  function LogicalLines(lines: seq<string>): (r: seq<string>)
    ensures |r| <= |lines|
    ensures lines != [] ==> |r| >= 1
    decreases |lines|
  {
    if lines == [] then []
    else
      var r := Assemble(lines[0], lines[1..]);
      [r.0] + LogicalLines(lines[1 + r.1..])
  }

  /** Appending a trimmed line ends in a backslash exactly when that line does. */
  lemma ContinuedEnding(prefix: string, next: string)
    requires !EndsWithBackslash(prefix)
    ensures EndsWithBackslash(prefix + TrimStart(next)) <==> EndsWithBackslash(next)
  {
    var t := TrimStart(next);
    var ws := TrimStartSplit(next);
    if t == [] {
      assert prefix + t == prefix;
      if next != [] {
        assert next == ws;
        assert IsWhiteSpace(ws[|ws| - 1]);
      }
    } else {
      assert next[|next| - 1] == t[|t| - 1];
      assert (prefix + t)[|prefix + t| - 1] == t[|t| - 1];
    }
  }

  /**
    A logical line still ends in a backslash only when the input ran out
    while it was being assembled.
   */
  lemma {:induction false} AssembleStopsAtLastMarker(line: string, rest: seq<string>)
    ensures EndsWithBackslash(Assemble(line, rest).0) ==> Assemble(line, rest).1 == |rest|
    decreases |rest|
  {
    if EndsWithBackslash(line) && rest != [] {
      AssembleStopsAtLastMarker(Continue(line, rest[0]), rest[1..]);
    }
  }

  /**
    When the input runs out in the middle of a continuation, the logical
    line takes up all the remaining lines and is kept as assembled, still
    ending in a backslash.
   */
  lemma {:induction false} AssembleRunsOut(line: string, rest: seq<string>)
    requires EndsWithBackslash(line)
    requires forall k :: 0 <= k < |rest| ==> EndsWithBackslash(rest[k])
    ensures Assemble(line, rest).1 == |rest|
    ensures EndsWithBackslash(Assemble(line, rest).0)
    decreases |rest|
  {
    if rest != [] {
      assert forall k :: 0 <= k < |rest| - 1 ==> rest[1..][k] == rest[k + 1];
      ContinuedEnding(TrimEndBackslashes(line), rest[0]);
      AssembleRunsOut(Continue(line, rest[0]), rest[1..]);
    }
  }

  /** A line ends in a backslash and still takes up lines exactly while its continuation lines all do. */
  lemma AssembleRunsOutIff(line: string, rest: seq<string>)
    requires EndsWithBackslash(line)
    ensures EndsWithBackslash(Assemble(line, rest).0) <==> forall k :: 0 <= k < |rest| ==> EndsWithBackslash(rest[k])
  {
    if forall k :: 0 <= k < |rest| ==> EndsWithBackslash(rest[k]) {
      AssembleRunsOut(line, rest);
    } else if EndsWithBackslash(Assemble(line, rest).0) {
      AssembleStopsAtLastMarker(line, rest);
      AssembleSwallows(line, rest);
      var k :| 0 <= k < |rest| && !EndsWithBackslash(rest[k]);
      if k < |rest| - 1 {
        assert false;
      }
      AssembleLastLine(line, rest);
      assert false;
    }
  }

  /** A logical line that took up lines ends in a backslash only if the last line it took up does. */
  lemma {:induction false} AssembleLastLine(line: string, rest: seq<string>)
    requires Assemble(line, rest).1 > 0
    ensures EndsWithBackslash(Assemble(line, rest).0) ==> EndsWithBackslash(rest[Assemble(line, rest).1 - 1])
    decreases |rest|
  {
    var next := Continue(line, rest[0]);
    if Assemble(next, rest[1..]).1 > 0 {
      AssembleLastLine(next, rest[1..]);
      assert rest[1..][Assemble(next, rest[1..]).1 - 1] == rest[Assemble(line, rest).1 - 1];
    }
  }

  /**
    Which physical lines a logical line swallows: only while the text so far
    ends in a backslash, so every swallowed line but the last ends in one,
    and (unless the input ran out) the last one does not.
   */
  lemma {:induction false} AssembleSwallows(line: string, rest: seq<string>)
    ensures var n := Assemble(line, rest).1;
      && (n > 0 ==> EndsWithBackslash(line))
      && (forall k :: 0 <= k < n - 1 ==> EndsWithBackslash(rest[k]))
      && (n < |rest| ==> !EndsWithBackslash(if n == 0 then line else rest[n - 1]))
    decreases |rest|
  {
    if EndsWithBackslash(line) && rest != [] {
      var next := Continue(line, rest[0]);
      AssembleSwallows(next, rest[1..]);
      ContinuedEnding(TrimEndBackslashes(line), rest[0]);
      var m := Assemble(next, rest[1..]).1;
      assert Assemble(line, rest).1 == m + 1;
      forall k | 0 <= k < m
        ensures EndsWithBackslash(rest[k])
      {
        if k > 0 { assert rest[k] == rest[1..][k - 1]; }
      }
      if m + 1 < |rest| && m > 0 {
        assert rest[m] == rest[1..][m - 1];
      }
    }
  }

  // ---------------------------------------------------------------------
  // Wrapping and unwrapping: a long line broken after a backslash, each
  // follow-on line indented, reads back as the line before the break.
  // ---------------------------------------------------------------------

  /** The fragments put back together. */
  function Concat(frags: seq<string>): string
    decreases |frags|
  {
    if frags == [] then "" else frags[0] + Concat(frags[1..])
  }

  /**
    The follow-on lines of a wrapped line: each fragment after its
    indentation, every one but the last ended by a backslash.
   */
  function Wrapped(frags: seq<string>, indents: seq<string>): (r: seq<string>)
    requires |indents| == |frags| && frags != []
    ensures |r| == |frags|
    decreases |frags|
  {
    if |frags| == 1 then [indents[0] + frags[0]]
    else [indents[0] + (frags[0] + "\\")] + Wrapped(frags[1..], indents[1..])
  }

  /**
    Fragments a wrap can be undone for: the indentations are white space,
    and no fragment starts with white space or ends in a backslash.
   */
  predicate Unwrappable(frags: seq<string>, indents: seq<string>) {
    && |indents| == |frags|
    && (forall k :: 0 <= k < |indents| ==> AllWhiteSpace(indents[k]))
    && (forall k :: 0 <= k < |frags| ==> !EndsWithBackslash(frags[k]))
    && (forall k :: 0 <= k < |frags| ==> frags[k] == [] || !IsWhiteSpace(frags[k][0]))
  }

  /** The one marker put after a line that ends in none is what `TrimEnd('\\')` removes. */
  lemma TrimEndMarker(head: string)
    requires !EndsWithBackslash(head)
    ensures TrimEndBackslashes(head + "\\") == head
  {
    var s := head + "\\";
    assert s[|head|] == '\\';
    assert BackslashRunStart(s, |head| + 1) == BackslashRunStart(s, |head|);
    assert |head| > 0 ==> s[|head| - 1] == head[|head| - 1];
    assert s[..|head|] == head;
  }

  /** Two texts that do not end in a backslash do not when put together. */
  lemma NotEndingConcat(a: string, b: string)
    requires !EndsWithBackslash(a) && !EndsWithBackslash(b)
    ensures !EndsWithBackslash(a + b)
  {
    if b != [] {
      assert (a + b)[|a + b| - 1] == b[|b| - 1];
    } else {
      assert a + b == a;
    }
  }

  /** Joining a follow-on line to a line ended by one marker: the marker and the indentation go. */
  lemma ContinueMarker(head: string, ws: string, g: string)
    requires !EndsWithBackslash(head) && AllWhiteSpace(ws)
    requires g == [] || !IsWhiteSpace(g[0])
    ensures EndsWithBackslash(head + "\\")
    ensures Continue(head + "\\", ws + g) == head + g
  {
    assert (head + "\\")[|head|] == '\\';
    TrimEndMarker(head);
    TrimStartAfter(ws, g);
  }

  /** The fragments after the first can be unwrapped as well. */
  lemma UnwrappableTail(frags: seq<string>, indents: seq<string>)
    requires |frags| > 1 && Unwrappable(frags, indents)
    ensures Unwrappable(frags[1..], indents[1..])
    ensures frags[1..] != []
  {
    assert forall k :: 0 <= k < |frags| - 1 ==> frags[1..][k] == frags[k + 1] && indents[1..][k] == indents[k + 1];
  }

  /** The last follow-on line ends the logical line. */
  lemma UnwrapLast(head: string, ws: string, f: string)
    requires !EndsWithBackslash(head) && !EndsWithBackslash(f) && AllWhiteSpace(ws)
    requires f == [] || !IsWhiteSpace(f[0])
    ensures Assemble(head + "\\", [ws + f]) == (head + f, 1)
  {
    var rest := [ws + f];
    ContinueMarker(head, ws, f);
    NotEndingConcat(head, f);
    AssembleUnfold(head + "\\", rest);
    assert rest[0] == ws + f && rest[1..] == [];
  }

  /** A follow-on line ended by a marker carries the logical line on to the next one. */
  lemma UnwrapStep(head: string, ws: string, f: string, more: seq<string>)
    requires !EndsWithBackslash(head) && AllWhiteSpace(ws)
    requires f == [] || !IsWhiteSpace(f[0])
    ensures var r := Assemble((head + f) + "\\", more);
      Assemble(head + "\\", [ws + (f + "\\")] + more) == (r.0, r.1 + 1)
  {
    ContinueMarkerAgain(head, ws, f);
    AssembleCons(head + "\\", ws + (f + "\\"), (head + f) + "\\", more);
  }

  /** A follow-on line that ends in a marker joins into the line followed by that fragment and a marker. */
  lemma ContinueMarkerAgain(head: string, ws: string, f: string)
    requires !EndsWithBackslash(head) && AllWhiteSpace(ws)
    requires f == [] || !IsWhiteSpace(f[0])
    ensures EndsWithBackslash(head + "\\")
    ensures Continue(head + "\\", ws + (f + "\\")) == (head + f) + "\\"
  {
    var g := f + "\\";
    assert g[0] == (if f == [] then '\\' else f[0]);
    ContinueMarker(head, ws, g);
    AppendAssoc(head, f, "\\");
  }

  /**
    `Assemble` of a continued line followed by `first`, which joined to it
    gives `joined`, and then `more` (`AssembleUnfold` with the joined line
    named).
   */
  lemma AssembleCons(line: string, first: string, joined: string, more: seq<string>)
    requires EndsWithBackslash(line) && Continue(line, first) == joined
    ensures var r := Assemble(joined, more);
      Assemble(line, [first] + more) == (r.0, r.1 + 1)
  {
    var rest := [first] + more;
    assert rest[0] == first && rest[1..] == more;
    AssembleUnfold(line, rest);
  }

  /**
    A line broken after `head` into any number of indented follow-on lines
    is assembled back into `head` and all the fragments, taking up every
    follow-on line.
   */
  lemma {:induction false} AssembleUnwraps(head: string, frags: seq<string>, indents: seq<string>)
    requires !EndsWithBackslash(head) && frags != [] && Unwrappable(frags, indents)
    ensures Assemble(head + "\\", Wrapped(frags, indents)) == (head + Concat(frags), |frags|)
    decreases |frags|
  {
    if |frags| == 1 {
      UnwrapOne(head, frags, indents);
    } else {
      NotEndingConcat(head, frags[0]);
      UnwrappableTail(frags, indents);
      AssembleUnwraps(head + frags[0], frags[1..], indents[1..]);
      UnwrapMore(head, frags, indents);
    }
  }

  /** `AssembleUnwraps` for a single follow-on line. */
  lemma UnwrapOne(head: string, frags: seq<string>, indents: seq<string>)
    requires !EndsWithBackslash(head) && |frags| == 1 && Unwrappable(frags, indents)
    ensures Assemble(head + "\\", Wrapped(frags, indents)) == (head + Concat(frags), 1)
  {
    var f := frags[0];
    assert Wrapped(frags, indents) == [indents[0] + f];
    UnwrapLast(head, indents[0], f);
    assert frags[1..] == [];
    assert Concat(frags) == f + "" == f;
  }

  /** The inductive step of `AssembleUnwraps`: the first follow-on line, then the others. */
  lemma UnwrapMore(head: string, frags: seq<string>, indents: seq<string>)
    requires !EndsWithBackslash(head) && |frags| > 1 && Unwrappable(frags, indents)
    requires var tail := Wrapped(frags[1..], indents[1..]);
      Assemble((head + frags[0]) + "\\", tail) == ((head + frags[0]) + Concat(frags[1..]), |frags| - 1)
    ensures Assemble(head + "\\", Wrapped(frags, indents)) == (head + Concat(frags), |frags|)
  {
    var f := frags[0];
    var more := Wrapped(frags[1..], indents[1..]);
    assert Wrapped(frags, indents) == [indents[0] + (f + "\\")] + more;
    UnwrapStep(head, indents[0], f, more);
    ConcatCons(head, frags);
  }

  /** Putting the fragments together after `head`: the first fragment, then the others. */
  lemma ConcatCons(head: string, frags: seq<string>)
    requires frags != []
    ensures head + Concat(frags) == (head + frags[0]) + Concat(frags[1..])
  {
    var c := Concat(frags[1..]);
    assert Concat(frags) == frags[0] + c;
    AppendAssoc(head, frags[0], c);
  }

  /** The physical lines of a wrapped line are one logical line: the line as it was before the wrap. */
  lemma LogicalLinesUnwrap(head: string, frags: seq<string>, indents: seq<string>)
    requires !EndsWithBackslash(head) && frags != [] && Unwrappable(frags, indents)
    ensures LogicalLines([head + "\\"] + Wrapped(frags, indents)) == [head + Concat(frags)]
  {
    var lines := [head + "\\"] + Wrapped(frags, indents);
    AssembleUnwraps(head, frags, indents);
    assert lines[0] == head + "\\" && lines[1..] == Wrapped(frags, indents);
    assert lines[1 + |frags|..] == [];
  }

  /** A line that does not end in a backslash is a logical line on its own. */
  lemma AssembleSingle(line: string, rest: seq<string>)
    requires !EndsWithBackslash(line)
    ensures Assemble(line, rest) == (line, 0)
  {
  }

  /** Without continuation markers, the logical lines are the physical lines. */
  lemma {:induction false} LogicalLinesIdentity(lines: seq<string>)
    requires forall k :: 0 <= k < |lines| ==> !EndsWithBackslash(lines[k])
    ensures LogicalLines(lines) == lines
    decreases |lines|
  {
    if lines != [] {
      LogicalLinesIdentity(lines[1..]);
      assert lines == [lines[0]] + lines[1..];
    }
  }

  /** Assembly never reaches back: the logical line is a continuation of the first one. */
  lemma {:induction false} AssembleExtends(line: string, rest: seq<string>)
    ensures TrimEndBackslashes(line) <= Assemble(line, rest).0
    decreases |rest|
  {
    TrimEndBackslashesPrefix(line);
    if EndsWithBackslash(line) && rest != [] {
      var head := TrimEndBackslashes(line);
      var next := head + TrimStart(rest[0]);
      AssembleExtends(next, rest[1..]);
      TrimEndOfExtension(head, TrimStart(rest[0]));
    }
  }

  /** Trimming backslashes off `head + tail` keeps `head` when `head` ends in none. */
  lemma TrimEndOfExtension(head: string, tail: string)
    requires !EndsWithBackslash(head)
    ensures head <= TrimEndBackslashes(head + tail)
  {
    var r := TrimEndBackslashes(head + tail);
    TrimEndBackslashesPrefix(head + tail);
    assert |r| >= |head| by {
      if |head| > 0 {
        assert (head + tail)[|head| - 1] == head[|head| - 1];
      }
    }
    assert (head + tail)[..|head|] == head;
  }

  /**
    Where the line before a boundary does not continue, the logical lines of
    the whole input are those of either side put together, so the lines are
    consumed exactly once and no logical line spans the boundary.
   */
  lemma {:induction false} LogicalLinesAppend(a: seq<string>, b: seq<string>)
    requires a != [] ==> !EndsWithBackslash(a[|a| - 1])
    ensures LogicalLines(a + b) == LogicalLines(a) + LogicalLines(b)
    decreases |a|
  {
    if a == [] {
      assert a + b == b;
      assert LogicalLines(a) + LogicalLines(b) == LogicalLines(b);
    } else {
      var c := a[1 + Assemble(a[0], a[1..]).1..];
      assert c != [] ==> c[|c| - 1] == a[|a| - 1];
      LogicalLinesAppend(c, b);
      LogicalLinesAppendStep(a, b);
    }
  }

  /** The inductive step of `LogicalLinesAppend`: from the rest after the first logical line to all of `a`. */
  lemma LogicalLinesAppendStep(a: seq<string>, b: seq<string>)
    requires a != [] && !EndsWithBackslash(a[|a| - 1])
    requires var c := a[1 + Assemble(a[0], a[1..]).1..];
      LogicalLines(c + b) == LogicalLines(c) + LogicalLines(b)
    ensures LogicalLines(a + b) == LogicalLines(a) + LogicalLines(b)
  {
    var first := Assemble(a[0], a[1..]);
    LogicalLinesFirst(a, b);
    var c := a[1 + first.1..];
    ConsAppend(first.0, LogicalLines(c), LogicalLines(b));
    assert LogicalLines(a + b) == [first.0] + (LogicalLines(c) + LogicalLines(b));
  }

  lemma ConsAppend<T>(f: T, x: seq<T>, y: seq<T>)
    ensures [f] + (x + y) == ([f] + x) + y
  {
  }

  /** The first logical line of `a + b` is that of `a`, and the rest follows it. */
  lemma LogicalLinesFirst(a: seq<string>, b: seq<string>)
    requires a != [] && !EndsWithBackslash(a[|a| - 1])
    ensures var r := Assemble(a[0], a[1..]);
      && 1 + r.1 <= |a|
      && LogicalLines(a + b) == [r.0] + LogicalLines(a[1 + r.1..] + b)
      && LogicalLines(a) == [r.0] + LogicalLines(a[1 + r.1..])
  {
    var ab := a + b;
    var r := Assemble(a[0], a[1..]);
    assert ab[0] == a[0] && ab[1..] == a[1..] + b;
    AssembleWithin(a[0], a[1..], b);
    assert ab[1 + r.1..] == a[1 + r.1..] + b;
  }

  /**
    Reading more input does not change a logical line that ends before the
    last line of what was already there, or at a last line without a marker.
   */
  lemma {:induction false} AssembleWithin(line: string, rest: seq<string>, more: seq<string>)
    requires !EndsWithBackslash(if rest == [] then line else rest[|rest| - 1])
    ensures Assemble(line, rest + more) == Assemble(line, rest)
    decreases |rest|
  {
    if rest == [] {
      assert !EndsWithBackslash(line);
    } else if EndsWithBackslash(line) {
      assert (rest + more)[0] == rest[0] && (rest + more)[1..] == rest[1..] + more;
      var next := Continue(line, rest[0]);
      if |rest| == 1 {
        ContinuedEnding(TrimEndBackslashes(line), rest[0]);
        assert rest[1..] == [];
        assert rest[1..] + more == more;
        assert Assemble(next, more) == (next, 0);
      } else {
        assert rest[1..][|rest[1..]| - 1] == rest[|rest| - 1];
        AssembleWithin(next, rest[1..], more);
      }
    }
  }

  /** One turn of the inner loop: a continued line and the next one are one logical line (`AssembleUnfold` at index `i`). */
  lemma AssembleStep(line: string, lines: seq<string>, i: nat)
    requires i < |lines| && EndsWithBackslash(line)
    ensures var r := Assemble(Continue(line, lines[i]), lines[i + 1..]);
      Assemble(line, lines[i..]) == (r.0, r.1 + 1)
  {
    var rest := lines[i..];
    assert rest[0] == lines[i] && rest[1..] == lines[i + 1..];
    var next := Continue(line, lines[i]);
    var r := Assemble(next, lines[i + 1..]);
    AssembleUnfold(line, rest);
    assert Assemble(line, rest) == (r.0, r.1 + 1);
  }

  /**
    `Assemble` unfolded by one line. `AssembleStep` restates it for the
    loop's index into the whole input and `AssembleCons` for a joined line
    given by name: with those forms their callers never see the body of
    `Continue`, which keeps those proofs small.
   */
  lemma AssembleUnfold(line: string, rest: seq<string>)
    requires rest != [] && EndsWithBackslash(line)
    ensures var r := Assemble(Continue(line, rest[0]), rest[1..]);
      Assemble(line, rest) == (r.0, r.1 + 1)
  {
    var next := Continue(line, rest[0]);
    var r := Assemble(next, rest[1..]);
    assert Assemble(line, rest) == (r.0, r.1 + 1);
  }

  /** The logical lines from `start` on: the one assembled there, then those after what it took up. */
  lemma LogicalLinesFrom(lines: seq<string>, start: nat, line: string, i: nat)
    requires start < |lines| && start < i
    requires Assemble(lines[start], lines[start + 1..]) == (line, i - start - 1)
    ensures i <= |lines| && LogicalLines(lines[start..]) == [line] + LogicalLines(lines[i..])
  {
    var s := lines[start..];
    assert s[0] == lines[start] && s[1..] == lines[start + 1..];
    assert s[1 + (i - start - 1)..] == lines[i..];
  }

  /** After one logical line, the rest of the logical lines are those of the rest of the input. */
  lemma LogicalLinesAfter(lines: seq<string>, done: seq<string>, start: nat, i: nat, line: string)
    requires start < |lines|
    requires LogicalLines(lines) == done + LogicalLines(lines[start..])
    requires Assemble(lines[start], lines[start + 1..]) == (line, i - start - 1) && start < i
    ensures i <= |lines|
    ensures LogicalLines(lines) == (done + [line]) + LogicalLines(lines[i..])
  {
    LogicalLinesFrom(lines, start, line, i);
    SnocSplit(LogicalLines(lines), done, LogicalLines(lines[start..]), line, LogicalLines(lines[i..]));
  }

  lemma SnocSplit(all: seq<string>, done: seq<string>, rest: seq<string>, line: string, tail: seq<string>)
    requires all == done + rest && rest == [line] + tail
    ensures all == (done + [line]) + tail
  {
  }

  /**
    What the inner loop keeps: the line built so far, with the lines from
    `next` on, assembles into the logical line that starts at `start`.
   */
  predicate Assembling(lines: seq<string>, start: nat, line: string, next: nat)
    requires start < next <= |lines|
  {
    var goal := Assemble(lines[start], lines[start + 1..]);
    var now := Assemble(line, lines[next..]);
    now.0 == goal.0 && (next - start - 1) + now.1 == goal.1
  }

  /** One turn of the inner loop keeps `Assembling`. */
  lemma ReadStep(lines: seq<string>, start: nat, line: string, next: nat)
    requires start < next < |lines| && EndsWithBackslash(line)
    requires Assembling(lines, start, line, next)
    ensures Assembling(lines, start, Continue(line, lines[next]), next + 1)
  {
    AssembleStep(line, lines, next);
  }

  /** When the inner loop stops, the line is assembled. */
  lemma ReadDone(lines: seq<string>, start: nat, line: string, next: nat)
    requires start < next <= |lines| && !(EndsWithBackslash(line) && next < |lines|)
    requires Assembling(lines, start, line, next)
    ensures (line, next - start - 1) == Assemble(lines[start], lines[start + 1..])
  {
    assert Assemble(line, lines[next..]) == (line, 0);
  }

  /**
    The inner loop: the physical line at `start`, with the continuation
    lines that follow it appended, and the position after the last line it
    took up.
   */
  method ReadLogicalLine(lines: seq<string>, start: nat) returns (line: string, next: nat)
    requires start < |lines|
    ensures start < next <= |lines|
    ensures (line, next - start - 1) == Assemble(lines[start], lines[start + 1..])
  {
    line := lines[start];
    next := start + 1;
    while EndsWithBackslash(line) && next < |lines|
      invariant start < next <= |lines|
      invariant Assembling(lines, start, line, next)
      decreases |lines| - next
    {
      ReadStep(lines, start, line, next);
      line := Continue(line, lines[next]);
      next := next + 1;
    }
    ReadDone(lines, start, line, next);
  }
}
