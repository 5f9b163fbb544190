/**
  The two pure helpers of the converter: the mapping from a registry hive
  name to the root token an Inno Setup `[Registry]` entry uses, and the
  escaping of text for Inno Setup, where `{` opens a constant and a literal
  brace is written `{{`.
 */
module Inno {

  /** The five hive names the converter recognises. */
  const KnownHives: set<string> :=
    {"HKEY_CURRENT_USER", "HKEY_LOCAL_MACHINE", "HKEY_CLASSES_ROOT", "HKEY_USERS", "HKEY_CURRENT_CONFIG"}

  /** The five root tokens Inno Setup accepts for them. */
  const KnownRoots: set<string> := {"HKCU", "HKLM", "HKCR", "HKU", "HKCC"}

  /** The short root token of a hive; any other text (including none at all) gives "". */
  function ShortHive(hive: string): (r: string)
    ensures r in KnownRoots <==> hive in KnownHives
    ensures r !in KnownRoots ==> r == ""
  {
    match hive
    case "HKEY_CURRENT_USER" => "HKCU"
    case "HKEY_LOCAL_MACHINE" => "HKLM"
    case "HKEY_CLASSES_ROOT" => "HKCR"
    case "HKEY_USERS" => "HKU"
    case "HKEY_CURRENT_CONFIG" => "HKCC"
    case _ => ""
  }

  /** The full hive name a root token abbreviates, "" for anything else. */
  function LongHive(root: string): (r: string)
    ensures r in KnownHives <==> root in KnownRoots
  {
    match root
    case "HKCU" => "HKEY_CURRENT_USER"
    case "HKLM" => "HKEY_LOCAL_MACHINE"
    case "HKCR" => "HKEY_CLASSES_ROOT"
    case "HKU" => "HKEY_USERS"
    case "HKCC" => "HKEY_CURRENT_CONFIG"
    case _ => ""
  }

  /** The mapping is a bijection between the five names and the five tokens. */
  lemma ShortHiveRoundTrip(hive: string, root: string)
    ensures hive in KnownHives ==> LongHive(ShortHive(hive)) == hive
    ensures root in KnownRoots ==> ShortHive(LongHive(root)) == root
  {
  }

  /** The table itself, as the converter writes it. */
  lemma ShortHiveTable()
    ensures ShortHive("HKEY_CURRENT_USER") == "HKCU"
    ensures ShortHive("HKEY_LOCAL_MACHINE") == "HKLM"
    ensures ShortHive("HKEY_CLASSES_ROOT") == "HKCR"
    ensures ShortHive("HKEY_USERS") == "HKU"
    ensures ShortHive("HKEY_CURRENT_CONFIG") == "HKCC"
    ensures ShortHive("HKEY_LOCAL_MACHINE\\") == "" && ShortHive("hkey_users") == "" && ShortHive("") == ""
  {
  }

  /** The number of occurrences of `c` in `s`. */
  function Occurrences(s: string, c: char): (n: nat)
    ensures n <= |s|
    ensures n == 0 <==> c !in s
  {
    if s == [] then 0 else (if s[0] == c then 1 else 0) + Occurrences(s[1..], c)
  }

  /** `input.Replace("{", "{{")`: every opening brace doubled, everything else kept in order. */
  function InnoEscape(input: string): (output: string)
    ensures |output| == |input| + Occurrences(input, '{')
    ensures '{' !in input ==> output == input
    ensures '{' in input <==> '{' in output
  {
    if input == [] then []
    else if input[0] == '{' then "{{" + InnoEscape(input[1..])
    else [input[0]] + InnoEscape(input[1..])
  }

  /** How Inno Setup reads escaped text back: `{{` stands for one `{`. */
  function InnoUnescape(text: string): (r: string)
    ensures |r| <= |text|
  {
    if |text| >= 2 && text[0] == '{' && text[1] == '{' then "{" + InnoUnescape(text[2..])
    else if text == [] then []
    else [text[0]] + InnoUnescape(text[1..])
  }

  /** Escaping loses nothing: reading the escaped text back gives the original. */
  lemma {:induction false} InnoEscapeRoundTrip(input: string)
    ensures InnoUnescape(InnoEscape(input)) == input
  {
    if input != [] {
      InnoEscapeRoundTrip(input[1..]);
      var rest := InnoEscape(input[1..]);
      if input[0] == '{' {
        UnescapePair(rest);
      } else {
        UnescapeSingle(input[0], rest);
      }
      assert [input[0]] + input[1..] == input;
    }
  }

  lemma UnescapePair(rest: string)
    ensures InnoUnescape("{{" + rest) == "{" + InnoUnescape(rest)
  {
    assert ("{{" + rest)[2..] == rest;
  }

  lemma UnescapeSingle(c: char, rest: string)
    requires c != '{'
    ensures InnoUnescape([c] + rest) == [c] + InnoUnescape(rest)
  {
    assert ([c] + rest)[1..] == rest;
  }

  /** Escaping is injective, so distinct names and keys stay distinct. */
  lemma InnoEscapeInjective(a: string, b: string)
    requires InnoEscape(a) == InnoEscape(b)
    ensures a == b
  {
    InnoEscapeRoundTrip(a);
    InnoEscapeRoundTrip(b);
  }

  /** Escaping works character by character: it distributes over concatenation. */
  lemma {:induction false} InnoEscapeAppend(a: string, b: string)
    ensures InnoEscape(a + b) == InnoEscape(a) + InnoEscape(b)
  {
    if a != [] {
      assert (a + b)[1..] == a[1..] + b;
      InnoEscapeAppend(a[1..], b);
    } else {
      assert a + b == b;
    }
  }

  /** In escaped text, every brace belongs to a doubled pair. */
  lemma {:induction false} InnoEscapeBracesPaired(input: string)
    ensures BracesPaired(InnoEscape(input))
  {
    if input != [] {
      InnoEscapeBracesPaired(input[1..]);
    }
  }

  /** The text is a sequence of single non-brace characters and `{{` pairs. */
  predicate BracesPaired(text: string)
    decreases |text|
  {
    if text == [] then true
    else if text[0] == '{' then |text| >= 2 && text[1] == '{' && BracesPaired(text[2..])
    else BracesPaired(text[1..])
  }
}
