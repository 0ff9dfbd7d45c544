/** The two dashboard settings, a page cap and a page unit: what the
    settings form saves, and the values the page starts with after a
    reload. */
module Settings {
  import opened Wrappers
  import opened Chars
  import opened Strings
  import opened JsValues
  import opened JsonValues

  /** `Number(value) || 0` for the page-cap input: `NaN` and 0 become 0,
      any other number is kept, sign included. */
  function CapFromInput(value: string): (cap: int)
    ensures cap != 0 ==> StringToNumber(value) == Int(cap)
    ensures cap == 0 <==> !NumberTruthy(StringToNumber(value))
  {
    match StringToNumber(value)
    case NaN => 0
    case Int(i) => i
  }

  /** The settings the page works with (`window._pageCap` and
      `window._pageUnit`), as the JSON values they were read from. */
  datatype Applied = Applied(pageCap: Json, pageUnit: Json)

  /** `persistSettings`: the object written to storage. */
  function StoredSettings(capValue: string, unitValue: string): (stored: Json)
    ensures stored.JObject? && stored.fields.Keys == {"pageCap", "pageUnit"}
    ensures Prop(stored, "pageCap") == Some(JNumber(CapFromInput(capValue)))
    ensures Prop(stored, "pageUnit") == Some(JString(unitValue))
  {
    JObject(map["pageCap" := JNumber(CapFromInput(capValue)), "pageUnit" := JString(unitValue)])
  }

  /** `persistSettings`: the values the page uses for the rest of the
      session. The unit is taken as typed, even when empty. */
  function SessionSettings(capValue: string, unitValue: string): (a: Applied)
    ensures a.pageCap == JNumber(CapFromInput(capValue))
    ensures a.pageUnit == JString(unitValue)
  {
    Applied(JNumber(CapFromInput(capValue)), JString(unitValue))
  }

  /** `applyPersistedSettings`. `stored` is the parsed settings entry, `None`
      when storage has none (then `{}` is parsed). A stored `null` makes
      `s.pageCap` throw, which is the `None` result. */
  function ApplyPersisted(stored: Option<Json>): (r: Option<Applied>)
    ensures r.None? <==> stored == Some(JNull)
    ensures stored.None? ==> r == Some(Applied(JNumber(0), JString("pages")))
    ensures r.Some? ==> JTruthy(r.value.pageCap) || r.value.pageCap == JNumber(0)
    ensures r.Some? ==> JTruthy(r.value.pageUnit)
    ensures r.Some? && stored.Some? && PropTruthy(stored.value, "pageCap") ==>
      r.value.pageCap == stored.value.fields["pageCap"]
    ensures r.Some? && stored.Some? && PropTruthy(stored.value, "pageUnit") ==>
      r.value.pageUnit == stored.value.fields["pageUnit"]
    ensures r.Some? && stored.Some? && !PropTruthy(stored.value, "pageCap") ==>
      r.value.pageCap == JNumber(0)
    ensures r.Some? && stored.Some? && !PropTruthy(stored.value, "pageUnit") ==>
      r.value.pageUnit == JString("pages")
  {
    var s := match stored case None => JObject(map[]) case Some(v) => v;
    if s == JNull then None
    else Some(Applied(PropOr(s, "pageCap", JNumber(0)), PropOr(s, "pageUnit", JString("pages"))))
  }

  /** Saving and then reloading gives back the cap the session used, and
      the unit too unless it was left empty, which reloads as "pages". */
  lemma PersistThenReload(capValue: string, unitValue: string)
    ensures var session := SessionSettings(capValue, unitValue);
      ApplyPersisted(Some(StoredSettings(capValue, unitValue)))
        == Some(if unitValue == [] then session.(pageUnit := JString("pages")) else session)
  {
  }

  /** A cap typed as a whole number is kept exactly. */
  lemma CapRoundTrip(n: int)
    ensures CapFromInput(DecimalString(n)) == n
  {
    StringToNumberRoundTrip(n);
  }

  /** A blank cap is saved as 0. */
  lemma BlankCapIsZero(value: string)
    requires forall i :: 0 <= i < |value| ==> IsSpace(value[i])
    ensures CapFromInput(value) == 0
  {
    TrimBlank(value);
  }

  /** So is a cap that, once trimmed, starts with a letter, such as "ten"
      or "NaN". */
  lemma WordCapIsZero(value: string)
    requires Trim(value) != [] && IsAsciiLetter(Trim(value)[0])
    ensures CapFromInput(value) == 0
  {
    var t := Trim(value);
    assert !IsDigit(t[0]);
  }
}
