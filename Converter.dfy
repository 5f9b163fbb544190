/**
  The conversion as a whole. The output starts with the section header
  `[Registry]`; then each logical line of the input is classified in turn.
  A key header sets the context (hive and key), a value record appends its
  entry, anything else is passed over. The first failure stops the
  conversion; the lines written before it stay written.
 */
module Converter {

  import opened Wrappers
  import opened Text
  import opened Continuation
  import opened Records
  import opened Payload
  import opened Directives

  /** The section header, the first line of every output. */
  const Header: string := "[Registry]"

  /** The converter between two lines: the context, the lines written, and the failure that stopped it, if any. */
  datatype State = State(ctx: Option<KeyContext>, out: seq<string>, failure: Option<Failure>)

  /** Before the first line: no context, only the header written. */
  const Init: State := State(None, [Header], None)

  /**
    What one logical line does to the state: it writes at most one line,
    removes none, and after a failure changes nothing.
   */
  function Step(st: State, line: string): (r: State)
    ensures st.out <= r.out && |r.out| <= |st.out| + 1
    ensures st.failure.Some? ==> r == st
  {
    if st.failure.Some? then st
    else
      match Classify(line)
      case Key(hive, key) => st.(ctx := Some(KeyContext(hive, key)))
      case Value(target, kind, payload) =>
        (match Emit(st.ctx, target, kind, payload)
         case Err(f) => st.(failure := Some(f))
         case Ok(directive) => st.(out := st.out + [directive]))
      case Unrecognised => st
  }

  /** The state after some logical lines, from the start: the header and at most one line per logical line. */
  function Run(lines: seq<string>): (r: State)
    ensures 1 <= |r.out| <= 1 + |lines|
    decreases |lines|
  {
    if lines == [] then Init else Step(Run(lines[..|lines| - 1]), lines[|lines| - 1])
  }

  /** The conversion of a whole file, given as its physical lines: at most one line written per physical line. */
  function Convert(physical: seq<string>): (r: State)
    ensures 1 <= |r.out| <= 1 + |physical|
  {
    Run(LogicalLines(physical))
  }

  /**
    Joining continuation lines before the conversion changes nothing: a line
    wrapped after `head` over indented follow-on lines converts as the line
    before the wrap.
   */
  lemma ConvertUnwrapped(head: string, frags: seq<string>, indents: seq<string>)
    requires !EndsWithBackslash(head) && frags != [] && Unwrappable(frags, indents)
    ensures Convert([head + "\\"] + Wrapped(frags, indents)) == Run([head + Concat(frags)])
  {
    LogicalLinesUnwrap(head, frags, indents);
  }

  /** One more line is one more step. */
  lemma RunSnoc(lines: seq<string>, line: string)
    ensures Run(lines + [line]) == Step(Run(lines), line)
  {
    assert (lines + [line])[..|lines|] == lines;
  }

  /**
    The converter loop: the outer loop reads a physical line, the inner one
    appends continuation lines to it while it ends in a backslash, then the
    logical line is classified; a failure ends the loop.
   */
  method ConvertLines(lines: seq<string>) returns (output: seq<string>, failure: Option<Failure>)
    ensures output == Convert(lines).out && failure == Convert(lines).failure
  {
    var ctx: Option<KeyContext> := None;
    output := [Header];
    failure := None;
    var i := 0;
    ghost var done: seq<string> := [];
    while i < |lines| && failure.None?
      invariant 0 <= i <= |lines|
      invariant LogicalLines(lines) == done + LogicalLines(lines[i..])
      invariant State(ctx, output, failure) == Run(done)
      decreases |lines| - i
    {
      ghost var start := i;
      var line;
      line, i := ReadLogicalLine(lines, i);
      LogicalLinesAfter(lines, done, start, i, line);
      RunSnoc(done, line);
      ctx, output, failure := ProcessLine(ctx, output, line);
      done := done + [line];
    }
    if i == |lines| {
      assert lines[i..] == [];
      assert done == LogicalLines(lines) by {
        assert done + [] == done;
      }
    } else {
      RunSticky(done, LogicalLines(lines[i..]));
    }
  }

  /**
    The body of the outer loop after assembly: a key header sets the
    context, a value record writes its entry or fails, anything else is
    passed over.
   */
  method ProcessLine(ctx: Option<KeyContext>, output: seq<string>, line: string)
    returns (ctx': Option<KeyContext>, output': seq<string>, failure: Option<Failure>)
    ensures State(ctx', output', failure) == Step(State(ctx, output, None), line)
  {
    ctx', output', failure := ctx, output, None;
    match Classify(line) {
      case Key(hive, key) =>
        ctx' := Some(KeyContext(hive, key));
      case Value(target, kind, payload) =>
        var r := Emit(ctx, target, kind, payload);
        match r {
          case Err(f) =>
            failure := Some(f);
          case Ok(directive) =>
            output' := output + [directive];
        }
      case Unrecognised =>
    }
  }

  // ---------------------------------------------------------------------
  // What the conversion does, line by line.
  // ---------------------------------------------------------------------

  /** After a failure nothing changes any more. */
  lemma {:induction false} RunSticky(a: seq<string>, b: seq<string>)
    requires Run(a).failure.Some?
    ensures Run(a + b) == Run(a)
    decreases |b|
  {
    if b == [] {
      assert a + b == a;
    } else {
      var c := b[..|b| - 1];
      RunSticky(a, c);
      assert (a + b)[..|a + b| - 1] == a + c;
    }
  }

  /** Lines once written stay written: later lines only add to the output. */
  lemma {:induction false} RunOutputGrows(a: seq<string>, b: seq<string>)
    ensures Run(a).out <= Run(a + b).out
    decreases |b|
  {
    if b == [] {
      assert a + b == a;
    } else {
      var c := b[..|b| - 1];
      RunOutputGrows(a, c);
      assert (a + b)[..|a + b| - 1] == a + c;
    }
  }

  /** The output starts with the section header, whatever the input. */
  lemma HeaderFirst(lines: seq<string>)
    ensures |Run(lines).out| >= 1 && Run(lines).out[0] == Header
  {
    RunOutputGrows([], lines);
    assert [] + lines == lines;
  }

  /** The context of the most recent key header among the lines, if there is one. */
  function LastKey(lines: seq<string>): (r: Option<KeyContext>)
    decreases |lines|
  {
    if lines == [] then None
    else
      match Classify(lines[|lines| - 1])
      case Key(hive, key) => Some(KeyContext(hive, key))
      case _ => LastKey(lines[..|lines| - 1])
  }

  /** The number of value records among the lines. */
  function ValueCount(lines: seq<string>): (n: nat)
    ensures n <= |lines|
    decreases |lines|
  {
    if lines == [] then 0
    else ValueCount(lines[..|lines| - 1]) + (if Classify(lines[|lines| - 1]).Value? then 1 else 0)
  }

  /**
    The entries of the value records among the lines, in input order, each
    under the most recent key header before it; a record that cannot be
    emitted gives none.
   */
  function Written(lines: seq<string>): seq<string>
    decreases |lines|
  {
    if lines == [] then []
    else
      var prefix := lines[..|lines| - 1];
      match Classify(lines[|lines| - 1])
      case Value(target, kind, payload) =>
        (match Emit(LastKey(prefix), target, kind, payload)
         case Ok(directive) => Written(prefix) + [directive]
         case Err(_) => Written(prefix))
      case _ => Written(prefix)
  }

  /**
    Until a failure, the context is that of the most recent key header, and
    the output is the header followed by the entry of every value record,
    one each, in input order.
   */
  lemma {:induction false} RunWithoutFailure(lines: seq<string>)
    requires Run(lines).failure.None?
    ensures Run(lines).ctx == LastKey(lines)
    ensures Run(lines).out == [Header] + Written(lines)
    ensures |Run(lines).out| == 1 + ValueCount(lines)
    decreases |lines|
  {
    if lines != [] {
      var prefix := lines[..|lines| - 1];
      assert Run(prefix).failure.None?;
      RunWithoutFailure(prefix);
      if Classify(lines[|lines| - 1]).Value? {
        ConsAppend(Header, Written(prefix), [Run(lines).out[|Run(lines).out| - 1]]);
      }
    }
  }

  /** A key header sets the context and writes nothing. */
  lemma StepKey(st: State, line: string)
    requires st.failure.None? && Classify(line).Key?
    ensures Step(st, line) == st.(ctx := Some(KeyContext(Classify(line).hive, Classify(line).key)))
    ensures Step(st, line).out == st.out
  {
  }

  /** An unrecognised line changes nothing, the context included. */
  lemma StepUnrecognised(st: State, line: string)
    requires Classify(line).Unrecognised?
    ensures Step(st, line) == st
  {
  }

  /** A value record appends exactly its entry to the output, or stops the conversion and writes nothing. */
  lemma StepValue(st: State, line: string)
    requires st.failure.None? && Classify(line).Value?
    ensures var r := Classify(line);
      var e := Emit(st.ctx, r.target, r.kind, r.payload);
      && Step(st, line).ctx == st.ctx
      && (e.Ok? ==> Step(st, line).out == st.out + [e.value] && Step(st, line).failure.None?)
      && (e.Err? ==> Step(st, line).out == st.out && Step(st, line).failure == Some(e.error))
  {
  }

  /**
    A value record before any key header stops the conversion and writes
    nothing. The cause is the missing context, unless the record is a
    REG_EXPAND_SZ whose byte list cannot be read: that is decoded first.
   */
  lemma ValueBeforeKey(lines: seq<string>, line: string)
    requires Run(lines).failure.None? && LastKey(lines).None? && Classify(line).Value?
    ensures var r := Classify(line);
      Run(lines + [line]).failure
        == Some(if r.kind == ExpandSzKind && ExpandSzText(r.payload).Err? then BadByteList(ExpandSzText(r.payload).error) else MissingKeyContext)
    ensures Run(lines + [line]).out == Run(lines).out
  {
    RunWithoutFailure(lines);
    RunSnoc(lines, line);
  }

  /** Without a key header, nothing but the section header is ever written. */
  lemma {:induction false} NoKeyNoOutput(lines: seq<string>)
    requires LastKey(lines).None?
    ensures Run(lines).out == [Header]
    decreases |lines|
  {
    if lines != [] {
      var prefix := lines[..|lines| - 1];
      var line := lines[|lines| - 1];
      assert LastKey(prefix).None?;
      NoKeyNoOutput(prefix);
      if Run(prefix).failure.None? {
        RunWithoutFailure(prefix);
        assert Run(prefix).ctx.None?;
      }
    }
  }
}
