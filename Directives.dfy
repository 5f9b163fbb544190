/**
  Directive emission. Every value record becomes one entry of the Inno
  Setup `[Registry]` section, under the hive and key of the most recent key
  header:

    Root: <root>; Subkey: "<key>"; ValueType: <type>; [ValueName: <name>; ]ValueData: <data>; Flags: uninsdeletevalue uninsdeletekeyifempty;

  The key, the name and most data are escaped for Inno Setup. The data of
  REG_EXPAND_SZ and REG_BINARY values is decoded first. Without a key
  header before it, a value record cannot be emitted.
 */
module Directives {

  import opened Wrappers
  import opened Text
  import opened Inno
  import opened Records
  import opened Payload

  /** The hive and key of the most recent key header (`CurrentHive`, `CurrentKey`). */
  datatype KeyContext = KeyContext(hive: string, key: string)

  /** Why the conversion stops. */
  datatype Failure =
    | MissingKeyContext             // a value record before any key header
    | BadByteList(cause: DecodeError) // a REG_EXPAND_SZ byte list that cannot be read

  /** The flags every entry carries. */
  const Flags: string := "uninsdeletevalue uninsdeletekeyifempty"

  /** The parameters of one `[Registry]` entry, as written. */
  datatype Entry = Entry(root: string, subkey: string, valueType: string, valueName: Option<string>, valueData: string)

  /** The `ValueType` parameter of each kind. */
  function TypeTag(kind: Kind): (r: string)
    ensures r in {"string", "dword", "expandsz", "binary"}
  {
    match kind
    case StringKind => "string"
    case DwordKind => "dword"
    case ExpandSzKind => "expandsz"
    case BinaryKind => "binary"
  }

  /** Each kind has its own `ValueType`. */
  lemma TypeTagInjective(k1: Kind, k2: Kind)
    ensures TypeTag(k1) == TypeTag(k2) <==> k1 == k2
  {
  }

  /** `"` + text + `"`. */
  function Quoted(text: string): string {
    "\"" + (text + "\"")
  }

  /**
    The `ValueData` parameter: a quoted escaped string, `$` and the escaped
    hexadecimal digits of a dword, the quoted escaped text of a decoded
    REG_EXPAND_SZ, or the quoted space-separated bytes of a REG_BINARY
    (escaped only in the named form).
   */
  function ValueData(kind: Kind, target: Target, payload: string): (r: Result<string, DecodeError>)
    ensures r.Err? <==> kind == ExpandSzKind && ExpandSzText(payload).Err?
  {
    match kind
    case StringKind => Ok(Quoted(InnoEscape(payload)))
    case DwordKind => Ok("$" + InnoEscape(payload))
    case ExpandSzKind =>
      (match ExpandSzText(payload)
       case Err(e) => Err(e)
       case Ok(text) => Ok(Quoted(InnoEscape(text))))
    case BinaryKind =>
      var data := BinaryData(payload);
      if target.Default? then Ok(Quoted(data)) else Ok(Quoted(InnoEscape(data)))
  }

  /**
    The entry for a value record under a key header, given its data. Only a
    named record has a `ValueName`; the root is empty exactly for a hive
    that is none of the five.
   */
  function EntryFor(ctx: KeyContext, target: Target, kind: Kind, data: string): (e: Entry)
    ensures e.valueName.Some? <==> target.Named?
    ensures e.root == "" <==> ctx.hive !in KnownHives
    ensures e.valueType == TypeTag(kind) && e.valueData == data
  {
    Entry(ShortHive(ctx.hive), InnoEscape(ctx.key), TypeTag(kind),
          if target.Named? then Some(InnoEscape(target.name)) else None, data)
  }

  /**
    One entry as a line of the `[Registry]` section; `ValueName` comes after
    `ValueType`. The line opens with the `Root`, `Subkey` and `ValueType`
    parameters, and without a name goes straight on to `ValueData`.
   */
  function Render(e: Entry): (r: string)
    ensures RenderHead(e) <= r
  {
    RenderHead(e) + (NameText(e.valueName) + RenderTail(e))
  }

  /** Everything up to and including the `ValueType` parameter. */
  function RenderHead(e: Entry): string {
    "Root: " + (e.root + ("; Subkey: " + (Quoted(e.subkey) + ("; ValueType: " + (e.valueType + "; ")))))
  }

  /** The `ValueData` and `Flags` parameters. */
  function RenderTail(e: Entry): string {
    "ValueData: " + (e.valueData + ("; Flags: " + (Flags + ";")))
  }

  function NameText(name: Option<string>): string {
    match name
    case Some(n) => "ValueName: " + (n + "; ")
    case None => ""
  }

  /**
    The line for a value record, or why there is none. The data is worked
    out first, so a bad REG_EXPAND_SZ byte list is reported even without a
    key header; then the missing context is.
   */
  function Emit(ctx: Option<KeyContext>, target: Target, kind: Kind, payload: string): (r: Result<string, Failure>)
    ensures r.Err? <==> ctx.None? || (kind == ExpandSzKind && ExpandSzText(payload).Err?)
    ensures kind == ExpandSzKind && ExpandSzText(payload).Err? ==> r == Err(BadByteList(ExpandSzText(payload).error))
    ensures ctx.None? && (kind != ExpandSzKind || ExpandSzText(payload).Ok?) ==> r == Err(MissingKeyContext)
  {
    match ValueData(kind, target, payload)
    case Err(e) => Err(BadByteList(e))
    case Ok(data) =>
      if ctx.None? then Err(MissingKeyContext)
      else Ok(Render(EntryFor(ctx.value, target, kind, data)))
  }

  /** Under a key header, a record whose data can be worked out is written as its entry. */
  lemma EmitOk(ctx: KeyContext, target: Target, kind: Kind, payload: string, data: string)
    requires ValueData(kind, target, payload) == Ok(data)
    ensures Emit(Some(ctx), target, kind, payload) == Ok(Render(EntryFor(ctx, target, kind, data)))
  {
  }

  // ---------------------------------------------------------------------
  // What Inno Setup reads in an entry.
  // ---------------------------------------------------------------------

  /**
    Undoing the brace doubling gives back the key and the value name of the
    record, the root maps back to the hive, and no escaped parameter holds a
    brace that opens a constant.
   */
  lemma EntryReadsBack(ctx: KeyContext, target: Target, kind: Kind, data: string)
    ensures var e := EntryFor(ctx, target, kind, data);
      && (e.root != "" ==> LongHive(e.root) == ctx.hive)
      && InnoUnescape(e.subkey) == ctx.key && BracesPaired(e.subkey)
      && (e.valueName.Some? <==> target.Named?)
      && (target.Named? ==> InnoUnescape(e.valueName.value) == target.name && BracesPaired(e.valueName.value))
      && e.valueType == TypeTag(kind)
  {
    InnoEscapeRoundTrip(ctx.key);
    InnoEscapeBracesPaired(ctx.key);
    if target.Named? {
      InnoEscapeRoundTrip(target.name);
      InnoEscapeBracesPaired(target.name);
    }
    ShortHiveRoundTrip(ctx.hive, "");
  }

  /**
    A key-deletion header `[-HIVE\\key]` is taken for a key header whose hive
    is `-HIVE`, which is none of the five: every entry under it has an empty
    root.
   */
  lemma DeletionHeaderRoot(hive: string, key: string, target: Target, kind: Kind, data: string)
    ensures EntryFor(KeyContext("-" + hive, key), target, kind, data).root == ""
  {
    assert ("-" + hive)[0] == '-';
  }

  /** Text without a brace is left as it is by escaping, and its braces are trivially paired. */
  lemma BraceFreePaired(text: string)
    requires '{' !in text
    ensures InnoEscape(text) == text && BracesPaired(text)
  {
    InnoEscapeBracesPaired(text);
  }

  /**
    The data stands for the payload: a string reads back as captured, a
    dword is `$` and its digits verbatim, a REG_EXPAND_SZ reads back as the
    decoded text (both with every brace doubled, so none opens a constant), and a REG_BINARY is its bytes separated by spaces, the
    same in both forms, since escaping leaves them alone.
   */
  lemma ValueDataMeaning(kind: Kind, target: Target, payload: string)
    requires ValidPayload(kind, payload)
    ensures kind == StringKind ==> exists d :: ValueData(kind, target, payload) == Ok(Quoted(d)) && InnoUnescape(d) == payload && BracesPaired(d)
    ensures kind == DwordKind ==> ValueData(kind, target, payload) == Ok("$" + payload)
    ensures kind == ExpandSzKind && ExpandSzText(payload).Ok? ==>
      exists d :: ValueData(kind, target, payload) == Ok(Quoted(d)) && InnoUnescape(d) == ExpandSzText(payload).value && BracesPaired(d)
    ensures kind == BinaryKind ==> ValueData(kind, target, payload) == Ok(Quoted(BinaryData(payload)))
  {
    match kind
    case StringKind =>
      InnoEscapeRoundTrip(payload);
      InnoEscapeBracesPaired(payload);
      assert ValueData(kind, target, payload) == Ok(Quoted(InnoEscape(payload)));
    case DwordKind =>
      assert '{' !in payload by {
        assert forall k :: 0 <= k < |payload| ==> IsHexDigit(payload[k]);
      }
    case ExpandSzKind =>
      if ExpandSzText(payload).Ok? {
        var text := ExpandSzText(payload).value;
        InnoEscapeRoundTrip(text);
        InnoEscapeBracesPaired(text);
        assert ValueData(kind, target, payload) == Ok(Quoted(InnoEscape(text)));
      }
    case BinaryKind =>
      assert AllHexListChars(payload) by {
        assert forall k :: 0 <= k < |payload| ==> IsHexListChar(payload[k]);
      }
      BinaryDataBraceFree(payload);
  }

  /** The two forms of a record differ only in the `ValueName` parameter, right after `ValueType`. */
  lemma NamedAddsValueName(e: Entry, name: string)
    requires e.valueName.None?
    ensures Render(e) == RenderHead(e) + RenderTail(e)
    ensures Render(e.(valueName := Some(name))) == RenderHead(e) + ("ValueName: " + (name + "; ")) + RenderTail(e)
  {
    assert NameText(e.valueName) + RenderTail(e) == RenderTail(e);
  }

  /** Every entry line begins with its `Root` parameter and ends with the flags. */
  lemma RenderEnds(e: Entry) returns (middle: string)
    ensures Render(e) == "Root: " + (middle + ("; Flags: " + (Flags + ";")))
  {
    var suffix := "; Flags: " + (Flags + ";");
    var h := e.root + ("; Subkey: " + (Quoted(e.subkey) + ("; ValueType: " + (e.valueType + "; "))));
    var n := NameText(e.valueName);
    var d := "ValueData: " + e.valueData;
    AppendAssoc("ValueData: ", e.valueData, suffix);
    assert RenderTail(e) == d + suffix;
    AppendAssoc(n, d, suffix);
    AppendAssoc(h, n + d, suffix);
    middle := h + (n + d);
    AppendAssoc("Root: ", h, n + RenderTail(e));
  }
}
