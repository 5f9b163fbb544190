/**
  Record classification. Each logical line is tried against five anchored
  shapes, in this order: a key header `[HIVE\path]`, then the value records
  `name=value` whose right-hand side is a quoted string, `dword:` digits,
  `hex(2):` bytes or `hex:` bytes. A value name is a quoted non-empty name
  or `@` for the default value. White space is allowed before the record,
  around `=`, and anything may follow the part a shape matches.

  The recognisers below are written by hand, one per shape; the lemmas show
  that each accepts exactly the lines of its shape, that no line has two
  shapes, and what each captures.
 */
module Records {

  import opened Wrappers
  import opened Text

  /** The name part of a value record: a quoted name or `@`. */
  datatype Target = Named(name: string) | Default

  /** The four kinds of value record the converter handles. */
  datatype Kind = StringKind | DwordKind | ExpandSzKind | BinaryKind

  /** A classified logical line. */
  datatype Record =
    | Key(hive: string, key: string)
    | Value(target: Target, kind: Kind, payload: string)
    | Unrecognised

  /** What introduces the payload of each kind, after `=` and white space. */
  function Introducer(kind: Kind): string {
    match kind
    case StringKind => "\""
    case DwordKind => "dword:"
    case ExpandSzKind => "hex(2):"
    case BinaryKind => "hex:"
  }

  /** The character class of a payload: `[^"]`, `[0-9a-fA-F]` or `[0-9a-fA-F, ]`. */
  function PayloadClass(kind: Kind): CharClass {
    match kind
    case StringKind => NotQuoteClass
    case DwordKind => HexDigitClass
    case ExpandSzKind => HexListClass
    case BinaryKind => HexListClass
  }

  predicate PayloadChar(kind: Kind, c: char) {
    InClass(PayloadClass(kind), c)
  }

  /** A payload the shape of its kind admits: one or more characters of its class. */
  predicate ValidPayload(kind: Kind, payload: string) {
    |payload| > 0 && forall k :: 0 <= k < |payload| ==> PayloadChar(kind, payload[k])
  }

  predicate ValidTarget(target: Target) {
    target.Named? ==> |target.name| > 0 && '"' !in target.name
  }

  /** The hive pattern `[^\\]+` and the key pattern `[^\]]+`. */
  predicate ValidKeyParts(hive: string, key: string) {
    |hive| > 0 && '\\' !in hive && |key| > 0 && ']' !in key
  }

  /** What the classifier may return: captures that fit the shape they came from. */
  predicate ValidRecord(r: Record) {
    match r
    case Key(hive, key) => ValidKeyParts(hive, key)
    case Value(target, kind, payload) => ValidTarget(target) && ValidPayload(kind, payload)
    case Unrecognised => true
  }

  /** `^\s*\[(?<hive>[^\\]+)\\(?<key>[^\]]+)\]`: the hive and key of a key header. */
  function MatchKey(line: string): (r: Option<(string, string)>)
    ensures r.Some? ==> ValidKeyParts(r.value.0, r.value.1)
  {
    var t := TrimStart(line);
    if t == [] || t[0] != '[' then None
    else
      var u := t[1..];
      match IndexOf(u, '\\', 0)
      case None => None
      case Some(b) =>
        if b == 0 then None
        else
          var w := u[b + 1..];
          match IndexOf(w, ']', 0)
          case None => None
          case Some(e) =>
            if e == 0 then None
            else
              IndexOfNone(u, '\\');
              IndexOfNone(w, ']');
              Some((u[..b], w[..e]))
  }

  /** `\s*=\s*`: what follows `=` and its surrounding white space. */
  function AfterEquals(target: Target, s: string): (r: Option<(Target, string)>)
    ensures r.Some? ==> r.value.0 == target
  {
    var u := TrimStart(s);
    if u != [] && u[0] == '=' then Some((target, TrimStart(u[1..]))) else None
  }

  /** `"(?<name>[^"]+)"|(?<at>@)` at the start of `t`: the value name and what follows it. */
  function MatchTarget(t: string): (r: Option<(Target, string)>)
    ensures r.Some? ==> ValidTarget(r.value.0) && |r.value.1| < |t|
  {
    if t == [] then None
    else if t[0] == '@' then Some((Default, t[1..]))
    else if t[0] == '"' then
      var u := t[1..];
      match IndexOf(u, '"', 0)
      case None => None
      case Some(q) =>
        if q == 0 then None
        else
          IndexOfNone(u, '"');
          Some((Named(u[..q]), u[q + 1..]))
    else None
  }

  /** `^\s*("(?<name>[^"]+)"|(?<at>@))\s*=\s*`: the value name and what follows. */
  function MatchHead(line: string): (r: Option<(Target, string)>)
    ensures r.Some? ==> ValidTarget(r.value.0)
  {
    match MatchTarget(TrimStart(line))
    case None => None
    case Some((target, after)) => AfterEquals(target, after)
  }

  /**
    The payload of a kind at the start of `s`: `"(?<value>[^"]+)"` for a
    string, otherwise the introducer and the longest non-empty run of the
    kind's class.
   */
  function MatchBody(kind: Kind, s: string): (r: Option<string>)
    ensures r.Some? ==> ValidPayload(kind, r.value)
  {
    if kind == StringKind then
      if s == [] || s[0] != '"' then None
      else
        var u := s[1..];
        match IndexOf(u, '"', 0)
        case None => None
        case Some(e) =>
          IndexOfNone(u, '"');
          assert forall k :: 0 <= k < e ==> u[..e][k] in u[..e];
          if e == 0 then None else Some(u[..e])
    else
      var intro := Introducer(kind);
      if |s| < |intro| || s[..|intro|] != intro then None
      else
        var u := s[|intro|..];
        var n := Span(u, 0, PayloadClass(kind));
        SpanRun(u, 0, PayloadClass(kind));
        if n == 0 then None else Some(u[..n])
  }

  /** A whole value shape of the given kind. */
  function MatchValue(kind: Kind, line: string): (r: Option<(Target, string)>)
    ensures r.Some? ==> ValidTarget(r.value.0) && ValidPayload(kind, r.value.1)
  {
    match MatchHead(line)
    case None => None
    case Some((target, s)) =>
      match MatchBody(kind, s)
      case None => None
      case Some(payload) => Some((target, payload))
  }

  /** The order the converter tries the value shapes in. */
  const ValueKinds: seq<Kind> := [StringKind, DwordKind, ExpandSzKind, BinaryKind]

  /** The value record of the first of `kinds` whose shape accepts the line. */
  function FirstValue(kinds: seq<Kind>, line: string): (r: Record)
    ensures r.Value? || r.Unrecognised?
    ensures ValidRecord(r)
  {
    if kinds == [] then Unrecognised
    else
      match MatchValue(kinds[0], line)
      case Some((t, p)) => Value(t, kinds[0], p)
      case None => FirstValue(kinds[1..], line)
  }

  /** The value record of a line, the kinds tried in the converter's order. */
  function MatchAnyValue(line: string): (r: Record)
    ensures r.Value? || r.Unrecognised?
    ensures ValidRecord(r)
  {
    FirstValue(ValueKinds, line)
  }

  /** First match wins: a key header, then the value shapes in order; otherwise nothing. */
  function Classify(line: string): (r: Record)
    ensures ValidRecord(r)
  {
    match MatchKey(line)
    case Some((hive, key)) => Key(hive, key)
    case None => MatchAnyValue(line)
  }

  // ---------------------------------------------------------------------
  // The shapes written out, and the recognisers proved against them.
  // ---------------------------------------------------------------------

  /** A key header line: white space, `[hive\key]`, then anything. */
  function KeyLine(ws: string, hive: string, key: string, tail: string): string {
    ws + ("[" + (hive + ("\\" + (key + ("]" + tail)))))
  }

  /** The name part as written: `"name"` or `@`. */
  function TargetText(target: Target, rest: string): string {
    match target
    case Named(name) => "\"" + (name + ("\"" + rest))
    case Default => "@" + rest
  }

  /** What closes a payload: the quote of a string, nothing for the others. */
  function Closer(kind: Kind): string {
    if kind == StringKind then "\"" else ""
  }

  /** The right-hand side as written: the introducer, the payload, its closer, then anything. */
  function BodyText(kind: Kind, payload: string, tail: string): string {
    Introducer(kind) + (payload + (Closer(kind) + tail))
  }

  /** A value line: name, `=` with white space around it, the payload of its kind, then anything. */
  function ValueLine(ws1: string, target: Target, ws2: string, ws3: string, kind: Kind, payload: string, tail: string): string {
    ws1 + TargetText(target, ws2 + ("=" + (ws3 + BodyText(kind, payload, tail))))
  }

  /** The unquoted payloads are the longest run of their class, so what follows them is outside it. */
  predicate TailFits(kind: Kind, tail: string) {
    kind == StringKind || tail == [] || !PayloadChar(kind, tail[0])
  }

  /** Every key header is recognised, with its hive and key captured. */
  lemma MatchKeyComplete(ws: string, hive: string, key: string, tail: string)
    requires AllWhiteSpace(ws) && ValidKeyParts(hive, key)
    ensures MatchKey(KeyLine(ws, hive, key, tail)) == Some((hive, key))
  {
    var w := key + ("]" + tail);
    var u := hive + ("\\" + w);
    var t := "[" + u;
    ConsSplit('[', u);
    TrimStartAfter(ws, t);
    IndexOfAfterPrefix(hive, '\\', w);
    AppendConsSplit(hive, '\\', w);
    IndexOfAfterPrefix(key, ']', tail);
    AppendConsSplit(key, ']', tail);
  }

  /** What the key recogniser accepts is a key header. */
  lemma MatchKeySound(line: string) returns (ws: string, tail: string)
    requires MatchKey(line).Some?
    ensures AllWhiteSpace(ws) && line == KeyLine(ws, MatchKey(line).value.0, MatchKey(line).value.1, tail)
  {
    ws := TrimStartSplit(line);
    var t := TrimStart(line);
    var u := t[1..];
    var b := IndexOf(u, '\\', 0).value;
    var w := u[b + 1..];
    var e := IndexOf(w, ']', 0).value;
    tail := w[e + 1..];
    assert MatchKey(line).value == (u[..b], w[..e]);
    SplitAtChar(t, 0, '[');
    SplitAtChar(u, b, '\\');
    SplitAtChar(w, e, ']');
    KeyLineOf(line, ws, t, u, w, u[..b], w[..e], tail);
  }

  /** Putting a key header back together from its parts. */
  lemma KeyLineOf(line: string, ws: string, t: string, u: string, w: string, hive: string, key: string, tail: string)
    requires line == ws + t && t == t[..0] + ("[" + u) && u == hive + ("\\" + w) && w == key + ("]" + tail)
    ensures line == KeyLine(ws, hive, key, tail)
  {
    assert t[..0] == [];
  }

  /** `=` and the white space around it, before something that is not white space. */
  lemma AfterEqualsComplete(target: Target, ws2: string, ws3: string, rest: string)
    requires AllWhiteSpace(ws2) && AllWhiteSpace(ws3)
    requires rest == [] || !IsWhiteSpace(rest[0])
    ensures AfterEquals(target, ws2 + ("=" + (ws3 + rest))) == Some((target, rest))
  {
    ConsSplit('=', ws3 + rest);
    TrimStartAfter(ws2, "=" + (ws3 + rest));
    TrimStartAfter(ws3, rest);
  }

  /** A name part as written is recognised, with the text after it. */
  lemma MatchTargetComplete(target: Target, rest: string)
    requires ValidTarget(target)
    ensures MatchTarget(TargetText(target, rest)) == Some((target, rest))
  {
    match target
    case Default =>
      ConsSplit('@', rest);
    case Named(name) =>
      ConsSplit('"', name + ("\"" + rest));
      IndexOfAfterPrefix(name, '"', rest);
      AppendConsSplit(name, '"', rest);
  }

  /** What the name-part recogniser accepts is a name part as written. */
  lemma MatchTargetSound(t: string)
    requires MatchTarget(t).Some?
    ensures t == TargetText(MatchTarget(t).value.0, MatchTarget(t).value.1)
  {
    SplitHead(t);
    if t[0] != '@' {
      var u := t[1..];
      var q := IndexOf(u, '"', 0).value;
      SplitAtChar(u, q, '"');
      NamedTextOf(t, u, u[..q], u[q + 1..]);
    }
  }

  /** Putting a quoted name part back together. */
  lemma NamedTextOf(t: string, u: string, name: string, rest: string)
    requires t != [] && t == [t[0]] + u && t[0] == '"' && u == name + ("\"" + rest)
    ensures t == TargetText(Named(name), rest)
  {
  }

  /** A name part starts with a quote or `@`, neither of them white space. */
  lemma TargetTextStart(target: Target, rest: string)
    ensures var t := TargetText(target, rest); t != [] && (t[0] == '"' || t[0] == '@')
  {
  }

  /** The name part and `=` of every value line are recognised. */
  lemma MatchHeadComplete(ws1: string, target: Target, ws2: string, ws3: string, rest: string)
    requires AllWhiteSpace(ws1) && AllWhiteSpace(ws2) && AllWhiteSpace(ws3) && ValidTarget(target)
    requires rest == [] || !IsWhiteSpace(rest[0])
    ensures MatchHead(ws1 + TargetText(target, ws2 + ("=" + (ws3 + rest)))) == Some((target, rest))
  {
    var after := ws2 + ("=" + (ws3 + rest));
    var t := TargetText(target, after);
    TargetTextStart(target, after);
    TrimStartAfter(ws1, t);
    MatchTargetComplete(target, after);
    AfterEqualsComplete(target, ws2, ws3, rest);
  }

  /** What `AfterEquals` accepts is `=` with white space around it. */
  lemma AfterEqualsSound(target: Target, s: string) returns (ws2: string, ws3: string)
    requires AfterEquals(target, s).Some?
    ensures AllWhiteSpace(ws2) && AllWhiteSpace(ws3)
    ensures s == ws2 + ("=" + (ws3 + AfterEquals(target, s).value.1))
  {
    ws2 := TrimStartSplit(s);
    var u := TrimStart(s);
    SplitHead(u);
    ws3 := TrimStartSplit(u[1..]);
  }

  /** What the head recogniser accepts is a name part with its `=`. */
  lemma MatchHeadSound(line: string) returns (ws1: string, ws2: string, ws3: string)
    requires MatchHead(line).Some?
    ensures AllWhiteSpace(ws1) && AllWhiteSpace(ws2) && AllWhiteSpace(ws3)
    ensures var (target, rest) := MatchHead(line).value;
      line == ws1 + TargetText(target, ws2 + ("=" + (ws3 + rest)))
  {
    ws1 := TrimStartSplit(line);
    var t := TrimStart(line);
    var (target, after) := MatchTarget(t).value;
    MatchTargetSound(t);
    ws2, ws3 := AfterEqualsSound(target, after);
  }

  /** Every payload, followed by something outside its class, is recognised. */
  lemma MatchBodyComplete(kind: Kind, payload: string, tail: string)
    requires ValidPayload(kind, payload) && TailFits(kind, tail)
    ensures MatchBody(kind, BodyText(kind, payload, tail)) == Some(payload)
  {
    if kind == StringKind {
      ConsSplit('"', payload + ("\"" + tail));
      assert forall k :: 0 <= k < |payload| ==> payload[k] != '"';
      IndexOfAfterPrefix(payload, '"', tail);
      AppendConsSplit(payload, '"', tail);
    } else {
      var intro := Introducer(kind);
      var u := payload + tail;
      assert Closer(kind) + tail == tail;
      AppendSplit(intro, u);
      AppendSplit(payload, tail);
      if |payload| < |u| { assert u[|payload|] == tail[0]; }
      SpanExact(u, 0, |payload|, PayloadClass(kind));
    }
  }

  /** What the body recogniser accepts is a payload of its kind, followed by something outside its class. */
  lemma MatchBodySound(kind: Kind, s: string) returns (tail: string)
    requires MatchBody(kind, s).Some?
    ensures TailFits(kind, tail) && s == BodyText(kind, MatchBody(kind, s).value, tail)
  {
    if kind == StringKind {
      SplitHead(s);
      var u := s[1..];
      var e := IndexOf(u, '"', 0).value;
      SplitAt(u, e);
      tail := u[e + 1..];
    } else {
      var intro := Introducer(kind);
      var u := s[|intro|..];
      var n := Span(u, 0, PayloadClass(kind));
      tail := u[n..];
      assert u == u[..n] + tail;
      assert s == intro + u;
      assert Closer(kind) + tail == tail;
    }
  }

  /** The introducers of different kinds differ, so no text starts two payloads. */
  lemma MatchBodyExclusive(k1: Kind, k2: Kind, s: string)
    requires MatchBody(k1, s).Some? && MatchBody(k2, s).Some?
    ensures k1 == k2
  {
    var i1, i2 := Introducer(k1), Introducer(k2);
    assert s[..|i1|] == i1 && s[..|i2|] == i2;
    assert s[0] == i1[0] == i2[0];
    if |i1| > 3 && |i2| > 3 { assert s[3] == i1[3] == i2[3]; }
  }

  /** A key header starts with `[`, a value record with `"` or `@`: no line is both. */
  lemma KeyAndValueExclusive(line: string)
    ensures MatchKey(line).Some? ==> MatchHead(line).None?
  {
  }

  /** Every value line of a kind is recognised as that kind, by the kinds tried in order. */
  lemma ClassifyValueComplete(ws1: string, target: Target, ws2: string, ws3: string, kind: Kind, payload: string, tail: string)
    requires AllWhiteSpace(ws1) && AllWhiteSpace(ws2) && AllWhiteSpace(ws3) && ValidTarget(target)
    requires ValidPayload(kind, payload) && TailFits(kind, tail)
    ensures Classify(ValueLine(ws1, target, ws2, ws3, kind, payload, tail)) == Value(target, kind, payload)
  {
    var body := BodyText(kind, payload, tail);
    var line := ValueLine(ws1, target, ws2, ws3, kind, payload, tail);
    IntroducerStart(kind, payload, tail);
    MatchHeadComplete(ws1, target, ws2, ws3, body);
    MatchBodyComplete(kind, payload, tail);
    MatchValueOf(kind, line, target, body, payload);
    ClassifyFromValue(line, kind);
  }

  /** A body starts with its introducer, which is not white space. */
  lemma IntroducerStart(kind: Kind, payload: string, tail: string)
    ensures var body := BodyText(kind, payload, tail);
      body != [] && !IsWhiteSpace(body[0])
  {
    var i := Introducer(kind);
    assert BodyText(kind, payload, tail)[0] == i[0];
  }

  /** The value shape of a kind accepts a line whose head and body it accepts. */
  lemma MatchValueOf(kind: Kind, line: string, target: Target, body: string, payload: string)
    requires MatchHead(line) == Some((target, body)) && MatchBody(kind, body) == Some(payload)
    ensures MatchValue(kind, line) == Some((target, payload))
  {
  }

  /** A line that one value shape accepts is classified as that kind. */
  lemma ClassifyFromValue(line: string, kind: Kind)
    requires MatchValue(kind, line).Some?
    ensures Classify(line) == Value(MatchValue(kind, line).value.0, kind, MatchValue(kind, line).value.1)
  {
    KeyAndValueExclusive(line);
    OnlyMatchingKind(line, kind);
    MatchAnyValueOf(line, kind);
  }

  /** `MatchAnyValue` picks the one kind whose shape accepts the line. */
  lemma MatchAnyValueOf(line: string, kind: Kind)
    requires MatchValue(kind, line).Some?
    requires forall k :: k != kind ==> MatchValue(k, line).None?
    ensures MatchAnyValue(line) == Value(MatchValue(kind, line).value.0, kind, MatchValue(kind, line).value.1)
  {
    FirstValueOf(ValueKinds, line, kind);
  }

  /** Trying kinds in turn finds the one kind whose shape accepts the line. */
  lemma {:induction false} FirstValueOf(kinds: seq<Kind>, line: string, kind: Kind)
    requires kind in kinds && MatchValue(kind, line).Some?
    requires forall k :: k != kind ==> MatchValue(k, line).None?
    ensures FirstValue(kinds, line) == Value(MatchValue(kind, line).value.0, kind, MatchValue(kind, line).value.1)
  {
    if kinds[0] != kind {
      FirstValueOf(kinds[1..], line, kind);
    }
  }

  /** When one kind's shape accepts a line, every other kind's shape rejects it. */
  lemma OnlyMatchingKind(line: string, kind: Kind)
    requires MatchValue(kind, line).Some?
    ensures forall k :: k != kind ==> MatchValue(k, line).None?
  {
    var rest := MatchHead(line).value.1;
    forall k | k != kind
      ensures MatchValue(k, line).None?
    {
      if MatchBody(k, rest).Some? { MatchBodyExclusive(k, kind, rest); }
    }
  }

  /** Every key header is classified as one. */
  lemma ClassifyKeyComplete(ws: string, hive: string, key: string, tail: string)
    requires AllWhiteSpace(ws) && ValidKeyParts(hive, key)
    ensures Classify(KeyLine(ws, hive, key, tail)) == Key(hive, key)
  {
    MatchKeyComplete(ws, hive, key, tail);
  }

  /**
    A key-deletion header `[-HIVE\\key]` has the key-header shape: it is
    classified as a key header whose hive starts with the `-`.
   */
  lemma DeletionHeaderIsKey(ws: string, hive: string, key: string, tail: string)
    requires AllWhiteSpace(ws) && ValidKeyParts(hive, key)
    ensures Classify(KeyLine(ws, "-" + hive, key, tail)) == Key("-" + hive, key)
  {
    assert '\\' !in "-" + hive by {
      assert forall k :: 0 < k < |"-" + hive| ==> ("-" + hive)[k] == hive[k - 1];
    }
    ClassifyKeyComplete(ws, "-" + hive, key, tail);
  }

  /** A line classified as a value record is a value line of that kind, with those captures. */
  lemma ClassifyValueSound(line: string) returns (ws1: string, ws2: string, ws3: string, tail: string)
    requires Classify(line).Value?
    ensures AllWhiteSpace(ws1) && AllWhiteSpace(ws2) && AllWhiteSpace(ws3)
    ensures var r := Classify(line);
      TailFits(r.kind, tail) && line == ValueLine(ws1, r.target, ws2, ws3, r.kind, r.payload, tail)
  {
    var r := Classify(line);
    ClassifiedValueMatches(line);
    var (target, rest) := MatchHead(line).value;
    ws1, ws2, ws3 := MatchHeadSound(line);
    tail := MatchBodySound(r.kind, rest);
  }

  /** A value record comes from the shape of its kind, with the same captures. */
  lemma ClassifiedValueMatches(line: string)
    requires Classify(line).Value?
    ensures var r := Classify(line);
      && MatchHead(line).Some?
      && MatchValue(r.kind, line) == Some((r.target, r.payload))
      && MatchBody(r.kind, MatchHead(line).value.1) == Some(r.payload)
      && r.target == MatchHead(line).value.0
  {
    assert Classify(line) == MatchAnyValue(line);
    MatchAnyValueMatches(line);
    var r := Classify(line);
    MatchValueParts(r.kind, line);
  }

  /** A value record found by `MatchAnyValue` comes from the shape of its kind. */
  lemma MatchAnyValueMatches(line: string)
    requires MatchAnyValue(line).Value?
    ensures var r := MatchAnyValue(line);
      MatchValue(r.kind, line) == Some((r.target, r.payload))
  {
    FirstValueMatches(ValueKinds, line);
  }

  /** A value record found by trying kinds in turn comes from the shape of its kind. */
  lemma {:induction false} FirstValueMatches(kinds: seq<Kind>, line: string)
    requires FirstValue(kinds, line).Value?
    ensures var r := FirstValue(kinds, line);
      MatchValue(r.kind, line) == Some((r.target, r.payload))
  {
    if MatchValue(kinds[0], line).None? {
      FirstValueMatches(kinds[1..], line);
    }
  }

  /** The captures of a value shape are those of its head and its body. */
  lemma MatchValueParts(kind: Kind, line: string)
    requires MatchValue(kind, line).Some?
    ensures MatchHead(line).Some?
    ensures MatchBody(kind, MatchHead(line).value.1) == Some(MatchValue(kind, line).value.1)
    ensures MatchHead(line).value.0 == MatchValue(kind, line).value.0
  {
  }

  /** A line classified as a key header is one, with those captures. */
  lemma ClassifyKeySound(line: string) returns (ws: string, tail: string)
    requires Classify(line).Key?
    ensures AllWhiteSpace(ws) && line == KeyLine(ws, Classify(line).hive, Classify(line).key, tail)
  {
    ws, tail := MatchKeySound(line);
  }

  /**
    The five shapes exclude one another, so the order the converter tries
    them in does not matter: a line is classified as a kind exactly when
    that kind's recogniser accepts it.
   */
  lemma ClassifyOrderIrrelevant(line: string, kind: Kind)
    ensures Classify(line).Key? <==> MatchKey(line).Some?
    ensures (Classify(line).Value? && Classify(line).kind == kind) <==> MatchValue(kind, line).Some?
  {
    ClassifyKeyIff(line);
    if MatchValue(kind, line).Some? {
      ClassifyFromValue(line, kind);
    } else if Classify(line).Value? {
      ClassifiedValueMatches(line);
    }
  }

  /** Only the key shape makes a key record. */
  lemma ClassifyKeyIff(line: string)
    ensures Classify(line).Key? <==> MatchKey(line).Some?
  {
  }
}
