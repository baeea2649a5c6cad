/** The HTTP session adapter over an IPC session: data access forwards to
    the wrapped session, and the locale, number format and collator are
    cached on the adapter. The locale is recomputed whenever the cached
    locale's language differs from the session's language value, which
    clears the other two caches. `NumberFormat` and `Collator` instances
    are opaque values determined by their locale. */
module SessionAdapter {

  import opened Wrappers

  /** Session keys: the language and country keys, and any other. */
  datatype Key = LanguageKey | CountryKey | Named(name: string)

  datatype Value = Text(text: string) | Opaque(id: nat)

  /** The wrapped IPC session: identifiers, last access time, how often it
      was touched, and its entries in iteration order. */
  datatype Session = Session(sessionId: string, lastAccess: nat, touches: nat, data: seq<(Key, Value)>)

  datatype Locale = Locale(language: string, country: string)
  datatype NumberFormat = NumberFormatFor(locale: Locale)
  datatype Collator = CollatorFor(locale: Locale)

  datatype Adapter = Adapter(
    session: Session,
    locale: Option<Locale>,
    format: Option<NumberFormat>,
    collator: Option<Collator>)

  datatype AdapterError =
    | NullSession        // `checkNotNull(session)` in the constructor
    | NoLanguage         // "No language found in session"

  // ---------------------------------------------------------------------
  // The wrapped session's entries.

  predicate DistinctKeys(data: seq<(Key, Value)>) {
    forall i, j :: 0 <= i < j < |data| ==> data[i].0 != data[j].0
  }

  predicate ValidSession(s: Session) {
    DistinctKeys(s.data)
  }

  function Lookup(data: seq<(Key, Value)>, k: Key): (r: Option<Value>)
    ensures r.Some? <==> exists i :: 0 <= i < |data| && data[i].0 == k
    ensures r.Some? ==> exists i :: 0 <= i < |data| && data[i] == (k, r.value)
  {
    if data == [] then None
    else if data[0].0 == k then Some(data[0].1)
    else
      var r := Lookup(data[1..], k);
      assert forall i :: 0 <= i < |data| - 1 ==> data[1..][i] == data[i + 1];
      assert r.Some? ==> exists i :: 0 <= i < |data| - 1 && data[1..][i] == (k, r.value);
      r
  }

  function Without(data: seq<(Key, Value)>, k: Key): (r: seq<(Key, Value)>)
    ensures forall i :: 0 <= i < |r| ==> r[i].0 != k && r[i] in data
    ensures forall p :: p in data && p.0 != k ==> p in r
    ensures DistinctKeys(data) ==> DistinctKeys(r)
  {
    if data == [] then []
    else if data[0].0 == k then Without(data[1..], k)
    else
      var rest := Without(data[1..], k);
      assert forall p :: p in rest ==> p in data[1..];
      [data[0]] + rest
  }

  function Store(data: seq<(Key, Value)>, k: Key, v: Value): (r: seq<(Key, Value)>)
    ensures Lookup(r, k) == Some(v)
    ensures forall other :: other != k ==> Lookup(r, other) == Lookup(Without(data, k), other)
    ensures DistinctKeys(data) ==> DistinctKeys(r)
  {
    var rest := Without(data, k);
    assert forall other :: other != k ==> Lookup([(k, v)] + rest, other) == Lookup(rest, other) by {
      forall other | other != k ensures Lookup([(k, v)] + rest, other) == Lookup(rest, other) {
        assert ([(k, v)] + rest)[1..] == rest;
      }
    }
    [(k, v)] + rest
  }

  lemma {:induction false} LookupWithout(data: seq<(Key, Value)>, k: Key, other: Key)
    requires other != k
    ensures Lookup(Without(data, k), other) == Lookup(data, other)
  {
    if data != [] {
      LookupWithout(data[1..], k, other);
      if data[0].0 != k {
        assert ([data[0]] + Without(data[1..], k))[1..] == Without(data[1..], k);
      }
    }
  }

  // ---------------------------------------------------------------------
  // Forwarding.

  /** The constructor rejects a null session. */
  function NewAdapter(session: Option<Session>): (r: Result<Adapter, AdapterError>)
    ensures r.Err? <==> session.None?
    ensures r.Ok? ==>
      r.value.session == session.value
      && r.value.locale.None? && r.value.format.None? && r.value.collator.None?
  {
    match session
    case None => Err(NullSession)
    case Some(s) => Ok(Adapter(s, None, None, None))
  }

  function Touch(a: Adapter, now: nat): (r: Adapter)
    ensures r.session.touches == a.session.touches + 1 && r.session.lastAccess == now
    ensures r.session.data == a.session.data
    ensures r.locale == a.locale && r.format == a.format && r.collator == a.collator
  {
    a.(session := a.session.(lastAccess := now, touches := a.session.touches + 1))
  }

  function Get(a: Adapter, k: Key): Option<Value>
  {
    Lookup(a.session.data, k)
  }

  function Contains(a: Adapter, k: Key): bool
  {
    Lookup(a.session.data, k).Some?
  }

  /** `set`: the key now has the value, and every other key keeps its own. */
  function Set(a: Adapter, k: Key, v: Value): (r: Adapter)
    ensures Get(r, k) == Some(v)
    ensures forall other :: other != k ==> Get(r, other) == Get(a, other)
    ensures ValidSession(a.session) ==> ValidSession(r.session)
    ensures r.locale == a.locale && r.format == a.format && r.collator == a.collator
  {
    forall other | other != k ensures Lookup(Without(a.session.data, k), other) == Lookup(a.session.data, other) {
      LookupWithout(a.session.data, k, other);
    }
    a.(session := a.session.(data := Store(a.session.data, k, v)))
  }

  /** `remove`: the previous value, and the key is gone afterwards. */
  function Remove(a: Adapter, k: Key): (r: (Adapter, Option<Value>))
    ensures r.1 == Get(a, k)
    ensures !Contains(r.0, k)
    ensures forall other :: other != k ==> Get(r.0, other) == Get(a, other)
    ensures ValidSession(a.session) ==> ValidSession(r.0.session)
  {
    forall other | other != k ensures Lookup(Without(a.session.data, k), other) == Lookup(a.session.data, other) {
      LookupWithout(a.session.data, k, other);
    }
    assert Lookup(Without(a.session.data, k), k).None?;
    (a.(session := a.session.(data := Without(a.session.data, k))), Get(a, k))
  }

  /** `putAll`: each pair is set in turn, so a later pair for the same key wins. */
  function PutAll(a: Adapter, pairs: seq<(Key, Value)>): (r: Adapter)
    ensures forall k :: (forall i :: 0 <= i < |pairs| ==> pairs[i].0 != k) ==> Get(r, k) == Get(a, k)
    ensures |pairs| > 0 ==> Get(r, pairs[|pairs| - 1].0) == Some(pairs[|pairs| - 1].1)
    ensures ValidSession(a.session) ==> ValidSession(r.session)
    decreases |pairs|
  {
    if pairs == [] then a
    else
      var last := pairs[|pairs| - 1];
      var before := PutAll(a, pairs[..|pairs| - 1]);
      Set(before, last.0, last.1)
  }

  /** No pair after the `i`-th has the same key. */
  predicate LastFor(pairs: seq<(Key, Value)>, i: nat)
    requires i < |pairs|
  {
    forall j :: i < j < |pairs| ==> pairs[j].0 != pairs[i].0
  }

  /** Every key ends up with the value of its last pair. */
  lemma {:induction false} PutAllLastWins(a: Adapter, pairs: seq<(Key, Value)>, i: nat)
    requires i < |pairs| && LastFor(pairs, i)
    ensures Get(PutAll(a, pairs), pairs[i].0) == Some(pairs[i].1)
    decreases |pairs|
  {
    var n := |pairs| - 1;
    var before := PutAll(a, pairs[..n]);
    assert PutAll(a, pairs) == Set(before, pairs[n].0, pairs[n].1);
    if i < n {
      var k := pairs[i].0;
      assert pairs[n].0 != k;
      assert pairs[..n][i] == pairs[i];
      assert LastFor(pairs[..n], i) by {
        forall j | i < j < n ensures pairs[..n][j].0 != pairs[..n][i].0 {
          assert pairs[..n][j] == pairs[j];
        }
      }
      PutAllLastWins(a, pairs[..n], i);
      assert Get(before, k) == Some(pairs[i].1);
      assert Get(Set(before, pairs[n].0, pairs[n].1), k) == Get(before, k);
    } else {
      assert i == n;
    }
  }

  /** `clear`: nothing is left. */
  function Clear(a: Adapter): (r: Adapter)
    ensures forall k :: !Contains(r, k)
  {
    a.(session := a.session.(data := []))
  }

  // ---------------------------------------------------------------------
  // Locale, number format and collator.

  /** `Character.isWhitespace`. */
  predicate IsWhitespace(c: char) {
    || c == ' ' || c == '\t' || c == '\n' || c == '\U{000B}' || c == '\U{000C}' || c == '\r'
    || ('\U{001C}' <= c <= '\U{001F}')
    || c == '\U{1680}' || ('\U{2000}' <= c <= '\U{2006}') || ('\U{2008}' <= c <= '\U{200A}')
    || c == '\U{2028}' || c == '\U{2029}' || c == '\U{205F}' || c == '\U{3000}'
  }

  /** `StringUtils.isNotBlank`. */
  predicate NotBlank(s: string) {
    exists i :: 0 <= i < |s| && !IsWhitespace(s[i])
  }

  function LowerChar(c: char): char {
    if 'A' <= c <= 'Z' then (c as int + 32) as char else c
  }

  function UpperChar(c: char): char {
    if 'a' <= c <= 'z' then (c as int - 32) as char else c
  }

  /** The locale constructor's case normalisation of its language and
      country. */
  function LowerAscii(s: string): (r: string)
    ensures |r| == |s| && forall i :: 0 <= i < |s| ==> r[i] == LowerChar(s[i])
  {
    seq(|s|, i requires 0 <= i < |s| => LowerChar(s[i]))
  }

  function UpperAscii(s: string): (r: string)
    ensures |r| == |s| && forall i :: 0 <= i < |s| ==> r[i] == UpperChar(s[i])
  {
    seq(|s|, i requires 0 <= i < |s| => UpperChar(s[i]))
  }

  /** The locale a language and country value give: both non-blank
      strings give language and country, a language alone the language;
      anything else is no language. */
  function LocaleOf(lang: Option<Value>, country: Option<Value>): (r: Result<Locale, AdapterError>)
    ensures r.Ok? <==> lang.Some? && lang.value.Text? && NotBlank(lang.value.text)
    ensures r.Ok? ==> r.value.language == LowerAscii(lang.value.text)
    ensures r.Ok? ==>
      if country.Some? && country.value.Text? && NotBlank(country.value.text)
      then r.value.country == UpperAscii(country.value.text)
      else r.value.country == ""
    ensures r.Err? ==> r.error == NoLanguage
  {
    if lang.Some? && lang.value.Text? && NotBlank(lang.value.text) then
      if country.Some? && country.value.Text? && NotBlank(country.value.text)
      then Ok(Locale(LowerAscii(lang.value.text), UpperAscii(country.value.text)))
      else Ok(Locale(LowerAscii(lang.value.text), ""))
    else Err(NoLanguage)
  }

  /** The cached locale is still good: its language equals the session's
      language value (a string equal to it). */
  predicate CacheHit(a: Adapter) {
    a.locale.Some? && Get(a, LanguageKey) == Some(Text(a.locale.value.language))
  }

  /** `getLocale`: touches the session; on a cache hit returns the cached
      locale; otherwise clears format and collator, and then either stores
      and returns the new locale or fails, keeping the stale one. */
  function GetLocale(a: Adapter, now: nat): (r: (Adapter, Result<Locale, AdapterError>))
    ensures r.0.session == Touch(a, now).session
    ensures CacheHit(a) ==> r == (Touch(a, now), Ok(a.locale.value))
    ensures !CacheHit(a) ==>
      var computed := LocaleOf(Get(a, LanguageKey), Get(a, CountryKey));
      && r.1 == computed
      && r.0.format.None? && r.0.collator.None?
      && r.0.locale == (if computed.Ok? then Some(computed.value) else a.locale)
  {
    var touched := Touch(a, now);
    if CacheHit(touched) then (touched, Ok(touched.locale.value))
    else
      var cleared := touched.(format := None, collator := None);
      match LocaleOf(Get(touched, LanguageKey), Get(touched, CountryKey))
      case Err(e) => (cleared, Err(e))
      case Ok(l) => (cleared.(locale := Some(l)), Ok(l))
  }

  /** `getNumberFormat`: touches the session and returns the cached format
      if there is one, without looking at the locale; otherwise the format
      of `getLocale()`, which is then cached. */
  function GetNumberFormat(a: Adapter, now: nat): (r: (Adapter, Result<NumberFormat, AdapterError>))
    ensures a.format.Some? ==> r == (Touch(a, now), Ok(a.format.value))
    ensures a.format.None? ==>
      var (b, locale) := GetLocale(Touch(a, now), now);
      && r.1 == (if locale.Ok? then Ok(NumberFormatFor(locale.value)) else Err(locale.error))
      && r.0 == b.(format := if locale.Ok? then Some(NumberFormatFor(locale.value)) else b.format)
  {
    var touched := Touch(a, now);
    if touched.format.Some? then (touched, Ok(touched.format.value))
    else
      var (b, locale) := GetLocale(touched, now);
      match locale
      case Err(e) => (b, Err(e))
      case Ok(l) => (b.(format := Some(NumberFormatFor(l))), Ok(NumberFormatFor(l)))
  }

  /** `getCollator`, the same memo for the collator. */
  function GetCollator(a: Adapter, now: nat): (r: (Adapter, Result<Collator, AdapterError>))
    ensures a.collator.Some? ==> r == (Touch(a, now), Ok(a.collator.value))
    ensures a.collator.None? ==>
      var (b, locale) := GetLocale(Touch(a, now), now);
      && r.1 == (if locale.Ok? then Ok(CollatorFor(locale.value)) else Err(locale.error))
      && r.0 == b.(collator := if locale.Ok? then Some(CollatorFor(locale.value)) else b.collator)
  {
    var touched := Touch(a, now);
    if touched.collator.Some? then (touched, Ok(touched.collator.value))
    else
      var (b, locale) := GetLocale(touched, now);
      match locale
      case Err(e) => (b, Err(e))
      case Ok(l) => (b.(collator := Some(CollatorFor(l))), Ok(CollatorFor(l)))
  }

  /** A lower-case language is cached: asking again returns the same
      locale and keeps the cached format and collator. */
  lemma LowerCaseLanguageCached(a: Adapter, now: nat, later: nat)
    requires GetLocale(a, now).1.Ok?
    requires Get(a, LanguageKey).Some? && Get(a, LanguageKey).value.Text?
    requires LowerAscii(Get(a, LanguageKey).value.text) == Get(a, LanguageKey).value.text
    ensures var b := GetLocale(a, now).0;
      GetLocale(b, later) == (Touch(b, later), Ok(GetLocale(a, now).1.value))
  {
  }

  /** The cached locale's language is in the locale constructor's
      lower case, as every locale `getLocale` stores is. */
  predicate LocaleNormal(a: Adapter) {
    a.locale.Some? ==> LowerAscii(a.locale.value.language) == a.locale.value.language
  }

  lemma {:induction false} GetLocaleNormal(a: Adapter, now: nat)
    requires LocaleNormal(a)
    ensures LocaleNormal(GetLocale(a, now).0)
  {
    var r := GetLocale(a, now);
    if !CacheHit(a) && r.1.Ok? {
      var l := r.1.value.language;
      assert l == LowerAscii(Get(a, LanguageKey).value.text);
      assert LowerAscii(l) == l by {
        forall i | 0 <= i < |l| ensures LowerChar(l[i]) == l[i] {}
      }
    }
  }

  /** A language with an upper-case letter never hits the cache: the
      locale's language is lower-cased, so every `getLocale` recomputes it
      and clears the cached format and collator. */
  lemma UpperCaseLanguageMisses(a: Adapter, now: nat)
    requires LocaleNormal(a)
    requires Get(a, LanguageKey).Some? && Get(a, LanguageKey).value.Text?
    requires LowerAscii(Get(a, LanguageKey).value.text) != Get(a, LanguageKey).value.text
    ensures !CacheHit(a)
    ensures GetLocale(a, now).0.format.None? && GetLocale(a, now).0.collator.None?
  {
  }

  /** A cached format outlives a change of language: `getNumberFormat`
      returns it without consulting the locale. */
  lemma StaleFormat(a: Adapter, now: nat, lang: string)
    requires a.format.Some?
    ensures GetNumberFormat(Set(a, LanguageKey, Text(lang)), now).1 == Ok(a.format.value)
  {
  }

  // ---------------------------------------------------------------------
  // renderAsMap.

  datatype Token =
    | KeyToken(key: Key)
    | IdKey | AccessTimeKey | DataKey
    | TextValue(text: string)
    | TimeValue(time: nat)
    | EntryValue(value: Value)
    | BeginObject
    | EndObject

  function EntryTokens(data: seq<(Key, Value)>): (r: seq<Token>)
    ensures |r| == 2 * |data|
    ensures forall i :: 0 <= i < |data| ==>
      r[2 * i] == KeyToken(data[i].0) && r[2 * i + 1] == EntryValue(data[i].1)
  {
    if data == [] then []
    else [KeyToken(data[0].0), EntryValue(data[0].1)] + EntryTokens(data[1..])
  }

  /** `renderAsMap`: the id, the access time, and every entry of the
      session in iteration order inside a `data` object, appended to what
      the renderer already holds. */
  function RenderAsMap(a: Adapter, rendered: seq<Token>): (r: seq<Token>)
    ensures |r| == |rendered| + 7 + 2 * |a.session.data|
    ensures r[..|rendered|] == rendered
    ensures r[|rendered|..|rendered| + 6] ==
      [IdKey, TextValue(a.session.sessionId), AccessTimeKey, TimeValue(a.session.lastAccess), DataKey, BeginObject]
    ensures forall i :: 0 <= i < |a.session.data| ==>
      r[|rendered| + 6 + 2 * i] == KeyToken(a.session.data[i].0)
      && r[|rendered| + 7 + 2 * i] == EntryValue(a.session.data[i].1)
    ensures r[|r| - 1] == EndObject
  {
    rendered
      + [IdKey, TextValue(a.session.sessionId), AccessTimeKey, TimeValue(a.session.lastAccess), DataKey, BeginObject]
      + EntryTokens(a.session.data)
      + [EndObject]
  }
}
