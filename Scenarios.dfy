/**
  Worked conversions: records of each kind under the key
  `HKEY_CURRENT_USER\Software\Foo`, and the entries the converter writes
  for them. The payload of each record is a parameter fixed by the
  precondition.
 */
module Scenarios {

  import opened Wrappers
  import opened Inno
  import opened Records
  import opened Payload
  import opened Directives

  const FooKey: KeyContext := KeyContext("HKEY_CURRENT_USER", "Software\\Foo")

  /** Under `FooKey`, the root is `HKCU` and the subkey is written as it is. */
  lemma FooEntry(target: Target, kind: Kind, data: string)
    requires target.Named? ==> '{' !in target.name
    ensures EntryFor(FooKey, target, kind, data)
      == Entry("HKCU", "Software\\Foo", TypeTag(kind), if target.Named? then Some(target.name) else None, data)
  {
    BraceFreePaired("Software\\Foo");
    if target.Named? {
      BraceFreePaired(target.name);
    }
  }

  /** Under `FooKey`, a record whose data can be worked out is written as the entry with `HKCU` and the subkey as it is. */
  lemma FooEmit(target: Target, kind: Kind, payload: string, data: string) returns (e: Entry)
    requires target.Named? ==> '{' !in target.name
    requires ValueData(kind, target, payload) == Ok(data)
    ensures e == Entry("HKCU", "Software\\Foo", TypeTag(kind), if target.Named? then Some(target.name) else None, data)
    ensures Emit(Some(FooKey), target, kind, payload) == Ok(Render(e))
  {
    e := EntryFor(FooKey, target, kind, data);
    FooEntry(target, kind, data);
    EmitOk(FooKey, target, kind, payload, data);
  }

  /** `"Bar"="Baz"`: a named string value, its text quoted. */
  lemma StringScenario(payload: string) returns (e: Entry)
    requires payload == "Baz"
    ensures e == Entry("HKCU", "Software\\Foo", "string", Some("Bar"), Quoted("Baz"))
    ensures Emit(Some(FooKey), Named("Bar"), StringKind, payload) == Ok(Render(e))
  {
    BraceFreePaired(payload);
    e := FooEmit(Named("Bar"), StringKind, payload, Quoted("Baz"));
  }

  /** `@=dword:0000002a`: the default value, so no `ValueName`, and the digits after a `$`. */
  lemma DwordScenario(payload: string) returns (e: Entry)
    requires payload == "0000002a"
    ensures e == Entry("HKCU", "Software\\Foo", "dword", None, "$0000002a")
    ensures Emit(Some(FooKey), Default, DwordKind, payload) == Ok(Render(e))
  {
    BraceFreePaired(payload);
    assert "$" + "0000002a" == "$0000002a";
    e := FooEmit(Default, DwordKind, payload, "$0000002a");
  }

  /** `"Y"=hex:01,02,0a`: the bytes separated by spaces. */
  lemma BinaryScenario(payload: string) returns (e: Entry)
    requires payload == "01,02,0a"
    ensures e == Entry("HKCU", "Software\\Foo", "binary", Some("Y"), Quoted("01 02 0a"))
    ensures Emit(Some(FooKey), Named("Y"), BinaryKind, payload) == Ok(Render(e))
  {
    assert ValidPayload(BinaryKind, payload) by {
      assert forall k :: 0 <= k < |payload| ==> PayloadChar(BinaryKind, payload[k]);
    }
    ValueDataMeaning(BinaryKind, Named("Y"), payload);
    BinaryDataExample(payload);
    e := FooEmit(Named("Y"), BinaryKind, payload, Quoted("01 02 0a"));
  }

  /** `"Z"=hex(2):25,00,00,00`: the text `%`, its terminator dropped. */
  lemma ExpandSzScenario(payload: string) returns (e: Entry)
    requires payload == "25,00,00,00"
    ensures e == Entry("HKCU", "Software\\Foo", "expandsz", Some("Z"), Quoted("%"))
    ensures Emit(Some(FooKey), Named("Z"), ExpandSzKind, payload) == Ok(Render(e))
  {
    ExpandSzPercent(payload);
    ExpandSzValueData(payload);
    e := FooEmit(Named("Z"), ExpandSzKind, payload, Quoted("%"));
  }

  lemma ExpandSzValueData(payload: string)
    requires ExpandSzText(payload) == Ok("%")
    ensures ValueData(ExpandSzKind, Named("Z"), payload) == Ok(Quoted("%"))
  {
    BraceFreePaired("%");
  }

  /** The same string value without a key header before it is not written. */
  lemma NoKeyScenario(payload: string)
    requires payload == "Baz"
    ensures Emit(None, Named("Bar"), StringKind, payload) == Err(MissingKeyContext)
  {
  }
}
