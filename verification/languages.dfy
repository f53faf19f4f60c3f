/**
 The language registry: an object literal from language codes to
 configurations, in declaration order, with lookup by code, the list of
 registered codes and the membership test.
 */
module Languages {
  import opened Shared
  import Hindi

  /** One property of the registry object: a code and its configuration. */
  datatype Entry = Entry(code: string, config: LanguageConfig)

  /** `languageRegistry`, in declaration order. Only Hindi is registered. */
  const Registry: seq<Entry> := [Entry("hindi", Hindi.Config)]

  /** The error message of a failed lookup. */
  function NotFound(code: string): string
  {
    "Language configuration not found for: " + code
  }

  /** The codes of `entries`, in order: `Object.keys`. */
  function Codes(entries: seq<Entry>): (codes: seq<string>)
    ensures |codes| == |entries|
    ensures forall i :: 0 <= i < |entries| ==> codes[i] == entries[i].code
  {
    if |entries| == 0 then [] else [entries[0].code] + Codes(entries[1..])
  }

  /** No code is declared twice. */
  predicate DistinctCodes(entries: seq<Entry>)
  {
    forall i, j :: 0 <= i < j < |entries| ==> entries[i].code != entries[j].code
  }

  /** The property named `code`, or the "not found" error. */
  function Lookup(entries: seq<Entry>, code: string): (r: Result<LanguageConfig>)
    ensures r.Ok? <==> code in Codes(entries)
    ensures r.Ok? ==> exists i :: 0 <= i < |entries| && entries[i] == Entry(code, r.value)
    ensures r.Err? ==> r.message == NotFound(code)
  {
    if |entries| == 0 then Err(NotFound(code))
    else if entries[0].code == code then Ok(entries[0].config)
    else
      var r := Lookup(entries[1..], code);
      assert Codes(entries) == [entries[0].code] + Codes(entries[1..]);
      if r.Ok? then
        var i :| 0 <= i < |entries[1..]| && entries[1..][i] == Entry(code, r.value);
        assert entries[i + 1] == Entry(code, r.value);
        r
      else r
  }

  /** With distinct codes a lookup finds the one entry carrying the code. */
  lemma LookupFindsEntry(entries: seq<Entry>, i: nat)
    requires DistinctCodes(entries) && i < |entries|
    ensures Lookup(entries, entries[i].code) == Ok(entries[i].config)
  {
    var r := Lookup(entries, entries[i].code);
    assert entries[i].code in Codes(entries) by {
      assert Codes(entries)[i] == entries[i].code;
    }
    var j :| 0 <= j < |entries| && entries[j] == Entry(entries[i].code, r.value);
    assert i == j;
  }

  /** `getLanguageConfig(code)`: the Hindi configuration for `hindi`, and
      the "not found" error naming the code for every other code. */
  function GetLanguageConfig(code: string): (r: Result<LanguageConfig>)
    ensures r.Ok? <==> code == "hindi"
    ensures r.Ok? ==> r.value == Hindi.Config
    ensures r.Err? ==> r.message == NotFound(code)
  {
    assert Codes(Registry) == ["hindi"];
    Lookup(Registry, code)
  }

  /** `getSupportedLanguages()`: exactly the codes a lookup accepts. */
  function GetSupportedLanguages(): (codes: seq<string>)
    ensures forall c :: c in codes <==> GetLanguageConfig(c).Ok?
  {
    assert Codes(Registry) == ["hindi"];
    Codes(Registry)
  }

  /** `isLanguageSupported(code)`: `code in languageRegistry`. */
  predicate IsLanguageSupported(code: string): (b: bool)
    ensures b <==> GetLanguageConfig(code).Ok?
  {
    assert Codes(Registry) == ["hindi"];
    code in Codes(Registry)
  }

  /** A code is supported exactly when looking it up succeeds, and a failed
      lookup names the code. */
  lemma SupportedIffFound(code: string)
    ensures IsLanguageSupported(code) <==> GetLanguageConfig(code).Ok?
    ensures !IsLanguageSupported(code) ==>
      GetLanguageConfig(code) == Err("Language configuration not found for: " + code)
  {
  }

  /** The registered codes are distinct members of the `SupportedLanguage`
      union, and not all of them: only `hindi` is registered. */
  lemma SupportedLanguagesAreKnown()
    ensures DistinctCodes(Registry)
    ensures forall c :: c in GetSupportedLanguages() ==> c in KnownLanguages
    ensures GetSupportedLanguages() == ["hindi"]
    ensures exists c :: c in KnownLanguages && !IsLanguageSupported(c)
  {
    assert "telugu" in KnownLanguages && !IsLanguageSupported("telugu");
  }

  /** Looking up `hindi` yields the Hindi configuration, whose code, name,
      script name and block are those the table declares. */
  lemma HindiRegistered()
    ensures GetLanguageConfig("hindi") == Ok(Hindi.Config)
    ensures Hindi.Config.code == "hindi" && Hindi.Config.name == "Hindi"
    ensures Hindi.Config.scriptName == "Devanagari"
    ensures Hindi.Config.rules == Hindi.Rules
    ensures Hindi.Config.unicodeRange == UnicodeRange(0x0900, 0x097F)
    ensures Hindi.Config.unicodeRange.start <= Hindi.Config.unicodeRange.end
  {
    LookupFindsEntry(Registry, 0);
  }

  /** An unregistered code is rejected with the message naming it. */
  lemma UnsupportedRejected()
    ensures GetLanguageConfig("unsupported") == Err("Language configuration not found for: unsupported")
  {
  }
}
