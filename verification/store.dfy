/**
 * The page-wide store (`useBearStore`) together with its subscriber: the form it holds and the
 * query string the subscriber last wrote to the address bar.
 */
module Store {
  import opened Wrappers
  import opened FormState
  import UrlState
  import Json

  datatype Page = Page(form: Form, search: string)

  /**
   * Page load with the corrected reader: the store starts from the form the address bar
   * carries, read with `UrlState.Load`; the address bar is left as it is until the first update.
   */
  function Boot(search: string): (p: Page)
    ensures p.search == search && DistinctKeys(p.form)
  {
    Page(UrlState.Load(search), search)
  }

  /** Page load as written: `form: getUrlState()`, which decodes the parameter twice. */
  function BootAsWritten(search: string): (p: Page)
    ensures p.search == search && DistinctKeys(p.form)
  {
    Page(UrlState.LoadAsWritten(search), search)
  }

  /** The two page loads agree on every address bar whose form text contains no `%`. */
  lemma BootsAgree(f: Form)
    requires DistinctKeys(f) && !Json.MentionsPercent(f)
    ensures BootAsWritten(UrlState.Query(f)) == Boot(UrlState.Query(f))
  {
    UrlState.LoadQuery(f);
    UrlState.LoadAsWrittenQuery(f);
  }

  /**
   * `updateForm(partial)`: the form is merged with `partial`, and the subscriber then writes a
   * query from which the corrected reader `UrlState.Load` reads the whole new form back (for
   * the reader as written, see `ReloadAfterUpdate`).
   */
  function Update(p: Page, partial: Form): (q: Page)
    requires DistinctKeys(p.form) && DistinctKeys(partial)
    ensures DistinctKeys(q.form)
    ensures forall k :: Lookup(q.form, k) == if k in Keys(partial) then Lookup(partial, k) else Lookup(p.form, k)
    ensures UrlState.Load(q.search) == q.form
  {
    var f := Merge(p.form, partial);
    forall k ensures Lookup(f, k) == if k in Keys(partial) then Lookup(partial, k) else Lookup(p.form, k) {
      MergeLookup(p.form, partial, k);
    }
    UrlState.LoadQuery(f);
    Page(f, UrlState.Query(f))
  }

  /**
   * `updateForm({ [field]: value })`: one field changes and nothing else does, and the
   * corrected reader reads the address bar back as the new form.
   */
  function Set(p: Page, field: Field, value: string): (q: Page)
    requires DistinctKeys(p.form)
    ensures DistinctKeys(q.form)
    ensures Lookup(q.form, Key(field)) == Some(value)
    ensures forall k | k != Key(field) :: Lookup(q.form, k) == Lookup(p.form, k)
    ensures UrlState.Load(q.search) == q.form
  {
    assert Keys(Single(field, value)) == [Key(field)];
    Update(p, Single(field, value))
  }

  /**
   * Reloading after any update reproduces the store with the corrected page load; as written,
   * only while no `%` is stored.
   */
  lemma ReloadAfterUpdate(p: Page, partial: Form)
    requires DistinctKeys(p.form) && DistinctKeys(partial)
    ensures Boot(Update(p, partial).search).form == Update(p, partial).form
    ensures !Json.MentionsPercent(Update(p, partial).form) ==>
      BootAsWritten(Update(p, partial).search).form == Update(p, partial).form
  {
    var q := Update(p, partial);
    if !Json.MentionsPercent(q.form) {
      UrlState.LoadAsWrittenQuery(q.form);
    }
  }
}
