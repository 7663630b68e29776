/**
 * The form's state in the address bar: what the store's subscriber writes after every change
 * (`?data=` followed by `encodeURIComponent(JSON.stringify(form))`) and what `getUrlState` reads
 * back at page load.
 *
 * `getUrlState` decodes the parameter twice: `URLSearchParams.get` already percent-decodes it,
 * and `decodeURIComponent` is applied once more. `LoadAsWritten` models that; `Load` is the
 * reading with the second decode removed, which gives back every form.
 */
module UrlState {
  import opened Wrappers
  import opened FormState
  import Json
  import UriComponent
  import SearchParams

  /** The name of the query parameter that carries the form. */
  const Param: string := "data"

  /** The query string the subscriber writes for `f`. */
  function Query(f: Form): (r: string)
    ensures |r| > |Param| + 2 && r[..|Param| + 2] == "?" + Param + "="
    ensures forall i | |Param| + 2 <= i < |r| :: UriComponent.Unreserved(r[i]) || r[i] == '%'
  {
    "?" + Param + "=" + UriComponent.Encode(Json.Stringify(f))
  }

  /** `JSON.parse(text)`, or the empty form where it throws. */
  function ParseOrEmpty(text: string): (f: Form)
    ensures DistinctKeys(f)
  {
    match Json.Parse(text)
    case None => []
    case Some(f) => f
  }

  /** The `data` parameter of a query, read the way `URLSearchParams.get` reads it. */
  function DataParam(search: string): (r: Option<string>)
    ensures var pairs := SearchParams.Parse(search);
      && (r.Some? <==> exists i | 0 <= i < |pairs| :: pairs[i].0 == Param)
      && (r.Some? ==> exists i | 0 <= i < |pairs| ::
            pairs[i] == (Param, r.value) && forall j | 0 <= j < i :: pairs[j].0 != Param)
  {
    SearchParams.Get(SearchParams.Parse(search), Param)
  }

  /**
   * `getUrlState()` as written: the empty form when `data` is missing or empty, otherwise the
   * parameter decoded a second time and parsed, with the empty form wherever either step throws.
   */
  function LoadAsWritten(search: string): (f: Form)
    ensures DistinctKeys(f)
  {
    match DataParam(search)
    case None => []
    case Some(encoded) =>
      if encoded == "" then []
      else
        match UriComponent.Decode(encoded)
        case None => []
        case Some(decoded) => ParseOrEmpty(decoded)
  }

  /** `getUrlState()` with the second decode removed: the parameter is parsed as `get` returns it. */
  function Load(search: string): (f: Form)
    ensures DistinctKeys(f)
  {
    match DataParam(search)
    case None => []
    case Some(encoded) => if encoded == "" then [] else ParseOrEmpty(encoded)
  }

  /** The query the subscriber writes carries the serialised form as its `data` parameter. */
  lemma DataParamOfQuery(f: Form)
    ensures DataParam(Query(f)) == Some(Json.Stringify(f))
  {
    SearchParams.GetSingleParam(Param, Json.Stringify(f));
  }

  /** A page with no `data` parameter, or an empty one, starts from the empty form. */
  lemma LoadWithoutData(search: string)
    requires DataParam(search) == None || DataParam(search) == Some("")
    ensures LoadAsWritten(search) == [] && Load(search) == []
  {}

  /**
   * Reading never fails: a parameter that is not well-formed percent-encoding, or whose text is
   * not a JSON object of strings, yields the empty form rather than an error.
   */
  lemma LoadFallsBack(search: string)
    requires DataParam(search).Some?
    requires var encoded := DataParam(search).value;
      UriComponent.Decode(encoded) == None || Json.Parse(UriComponent.Decode(encoded).value) == None
    ensures LoadAsWritten(search) == []
  {}

  /** Reading the subscriber's query back gives the same form, whatever its keys and values. */
  lemma LoadQuery(f: Form)
    requires DistinctKeys(f)
    ensures Load(Query(f)) == f
  {
    DataParamOfQuery(f);
    Json.ParseStringify(f);
  }

  /**
   * As written, the round trip holds for every form whose keys and values contain no `%` (and,
   * by `LoadAsWrittenLosesPercent`, for no other form).
   */
  lemma LoadAsWrittenQuery(f: Form)
    requires DistinctKeys(f) && !Json.MentionsPercent(f)
    ensures LoadAsWritten(Query(f)) == f
  {
    var text := Json.Stringify(f);
    DataParamOfQuery(f);
    Json.StringifyPercent(f);
    UriComponent.DecodeWithoutPercent(text);
    Json.ParseStringify(f);
  }

  /**
   * When a key or value contains `%`, the second decode never hands `JSON.parse` the text the
   * subscriber serialised: it either throws or shortens the text.
   */
  lemma SecondDecodeAltersPercent(f: Form)
    requires Json.MentionsPercent(f)
    ensures DataParam(Query(f)) == Some(Json.Stringify(f))
    ensures UriComponent.Decode(Json.Stringify(f)) != Some(Json.Stringify(f))
  {
    DataParamOfQuery(f);
    Json.StringifyPercent(f);
    UriComponent.DecodeWithPercent(Json.Stringify(f));
  }

  /**
   * As written, every form with a `%` in some key or value is lost or altered on reload: the
   * second decode either throws or shortens the text, and no text shorter than the form's own
   * serialisation parses to that form.
   */
  lemma LoadAsWrittenLosesPercent(f: Form)
    requires DistinctKeys(f) && Json.MentionsPercent(f)
    ensures LoadAsWritten(Query(f)) != f
  {
    var text := Json.Stringify(f);
    DataParamOfQuery(f);
    Json.StringifyPercent(f);
    match UriComponent.Decode(text)
    case None =>
    case Some(d) =>
      if Json.Parse(d).Some? {
        Json.ParseShortest(d);
      }
  }

  /** As written, a form survives the round trip exactly when no key or value contains `%`. */
  lemma LoadAsWrittenRoundTrip(f: Form)
    requires DistinctKeys(f)
    ensures LoadAsWritten(Query(f)) == f <==> !Json.MentionsPercent(f)
  {
    if Json.MentionsPercent(f) {
      LoadAsWrittenLosesPercent(f);
    } else {
      LoadAsWrittenQuery(f);
    }
  }
}
