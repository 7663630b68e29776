/**
 * One form row (`GenericInput`) with its shortcut buttons (`useButtonState2`): which button is
 * selected, what the text input shows, and what each click, typed edit and trash action writes
 * to the store.
 *
 * The selection is local to the row and is not derived from the stored value: typing text that
 * equals a shortcut's title does not select that shortcut, and typing after a click keeps the
 * button selected.
 */
module Shortcuts {
  import opened Wrappers
  import opened FormState
  import Store

  /** A shortcut option (`RowData`): `title` is the label written to the field, `value` the short code shown on the button. */
  datatype Shortcut = Shortcut(title: string, value: string)

  /** What `transform` produces for one button (`RowTransform` without its click handler). */
  datatype Button = Button(title: string, value: string, isLast: bool, id: nat, isSelected: bool)

  /** The selection index meaning "no button selected". */
  const NoSelection: int := -1

  /**
   * `transform(data)`: one button per option, in order, numbered from 0; the last one is marked
   * as last and the one at the selection index as selected.
   */
  function Transform(data: seq<Shortcut>, selected: int): (r: seq<Button>)
    ensures |r| == |data|
    ensures forall i | 0 <= i < |r| :: r[i].id == i && r[i].title == data[i].title && r[i].value == data[i].value
    ensures forall i | 0 <= i < |r| :: r[i].isLast <==> i == |data| - 1
    ensures forall i | 0 <= i < |r| :: r[i].isSelected <==> i == selected
  {
    seq(|data|, i requires 0 <= i < |data| =>
      Button(data[i].title, data[i].value, i == |data| - 1, i, i == selected))
  }

  /** The number of buttons shown as selected. */
  function SelectedCount(bs: seq<Button>): nat {
    if |bs| == 0 then 0 else (if bs[0].isSelected then 1 else 0) + SelectedCount(bs[1..])
  }

  lemma {:induction false} SelectedCountExactlyAt(bs: seq<Button>, k: int)
    requires forall i | 0 <= i < |bs| :: bs[i].isSelected <==> i == k
    ensures SelectedCount(bs) == if 0 <= k < |bs| then 1 else 0
  {
    if |bs| > 0 {
      SelectedCountExactlyAt(bs[1..], k - 1);
    }
  }

  /** A row shows exactly one selected button when the index names one, and none otherwise. */
  lemma TransformSelectedCount(data: seq<Shortcut>, selected: int)
    ensures SelectedCount(Transform(data, selected)) == if 0 <= selected < |data| then 1 else 0
  {
    SelectedCountExactlyAt(Transform(data, selected), selected);
  }

  /** One row: the field it is bound to, its options, its selection and what its input shows. */
  datatype Widget = Widget(field: Field, shortcuts: seq<Shortcut>, selected: int, text: string)

  /** A selection index is either "none" or the index of one of the row's buttons. */
  predicate ValidSelection(w: Widget) {
    w.selected == NoSelection || 0 <= w.selected < |w.shortcuts|
  }

  /** The input shows what the store holds for the row's field, an absent value showing as empty. */
  predicate Synced(w: Widget, f: Form) {
    w.text == Lookup(f, Key(w.field)).GetOr("")
  }

  /** A click on a button, a typed edit of the input, or the trash button. */
  datatype Event = Click(i: nat) | Input(typed: string) | Trash

  /** Only buttons that are rendered can be clicked. */
  predicate CanHandle(shortcuts: seq<Shortcut>, e: Event) {
    e.Click? ==> e.i < |shortcuts|
  }

  /** A freshly mounted row: nothing selected, and its input filled once from the store. */
  function Mount(field: Field, shortcuts: seq<Shortcut>, f: Form): (w: Widget)
    ensures w.selected == NoSelection
    ensures ValidSelection(w) && Synced(w, f)
    ensures w.field == field && w.shortcuts == shortcuts
  {
    Widget(field, shortcuts, NoSelection, Lookup(f, Key(field)).GetOr(""))
  }

  /** What a handler writes to the row's field. */
  function Written(w: Widget, e: Event): string
    requires CanHandle(w.shortcuts, e)
  {
    match e
    case Click(i) => if i == w.selected then "" else w.shortcuts[i].title
    case Input(typed) => typed
    case Trash => ""
  }

  /**
   * The handlers, on the row and the store's form: a click toggles its button (selecting it
   * writes its title, clicking the selected button again deselects it and writes the empty
   * string); a typed edit writes the raw text and leaves the selection alone; the trash button
   * clears the selection, the input and the field. The input always ends up showing what was
   * written.
   */
  function Step(w: Widget, f: Form, e: Event): (r: (Widget, Form))
    requires DistinctKeys(f) && CanHandle(w.shortcuts, e)
    ensures r.0.field == w.field && r.0.shortcuts == w.shortcuts
    ensures DistinctKeys(r.1)
    ensures ValidSelection(w) ==> ValidSelection(r.0)
    ensures Synced(r.0, r.1)
  {
    var selected :=
      match e
      case Click(i) => if i == w.selected then NoSelection else i
      case Input(_) => w.selected
      case Trash => NoSelection;
    var written := Written(w, e);
    (w.(selected := selected, text := written), SetField(f, w.field, written))
  }

  /** A handler changes no field other than its row's own. */
  lemma StepKeepsOtherFields(w: Widget, f: Form, e: Event)
    requires DistinctKeys(f) && CanHandle(w.shortcuts, e)
    ensures var r := Step(w, f, e);
      forall k | k != Key(w.field) :: Lookup(r.1, k) == Lookup(f, k)
  {}

  /** A handler on one row leaves every other field of the schema as it was. */
  lemma StepKeepsOtherRows(w: Widget, f: Form, e: Event, other: Field)
    requires DistinctKeys(f) && CanHandle(w.shortcuts, e) && other != w.field
    ensures Lookup(Step(w, f, e).1, Key(other)) == Lookup(f, Key(other))
  {
    KeyInjective(other, w.field);
    StepKeepsOtherFields(w, f, e);
  }

  /**
   * A handler on another row leaves this row's input showing what the store holds, so the one
   * synchronisation at mount is enough for a row that other rows' handlers write around.
   */
  lemma OtherRowStaysSynced(w: Widget, other: Widget, f: Form, e: Event)
    requires DistinctKeys(f) && CanHandle(other.shortcuts, e) && other.field != w.field
    requires Synced(w, f)
    ensures Synced(w, Step(other, f, e).1)
  {
    StepKeepsOtherRows(other, f, e, w.field);
  }

  /** The same over any sequence of events on another row. */
  lemma {:induction false} OtherRowRunStaysSynced(w: Widget, other: Widget, f: Form, es: seq<Event>)
    requires DistinctKeys(f) && other.field != w.field
    requires forall e | e in es :: CanHandle(other.shortcuts, e)
    requires Synced(w, f)
    ensures Synced(w, Run(other, f, es).1)
    decreases |es|
  {
    if |es| > 0 {
      var s := Step(other, f, es[0]);
      OtherRowStaysSynced(w, other, f, es[0]);
      var rest := es[1..];
      assert forall e | e in rest :: e in es;
      OtherRowRunStaysSynced(w, s.0, s.1, rest);
    }
  }

  /**
   * The effect of each event on the selection and on the row's field: it changes to the
   * option's title, the typed text, or the empty string (stored as a present empty string, not
   * as absence).
   */
  lemma StepEffect(w: Widget, f: Form, e: Event)
    requires DistinctKeys(f) && CanHandle(w.shortcuts, e)
    ensures var r := Step(w, f, e);
      && (e.Click? && e.i != w.selected ==>
            r.0.selected == e.i && Lookup(r.1, Key(w.field)) == Some(w.shortcuts[e.i].title))
      && (e.Click? && e.i == w.selected ==>
            r.0.selected == NoSelection && Lookup(r.1, Key(w.field)) == Some(""))
      && (e.Input? ==> r.0.selected == w.selected && Lookup(r.1, Key(w.field)) == Some(e.typed))
      && (e.Trash? ==> r.0.selected == NoSelection && Lookup(r.1, Key(w.field)) == Some(""))
  {}

  /**
   * Each handler goes through `updateForm`: the page's store ends up holding exactly the form
   * `Step` computes, and the address bar the subscriber writes reads back as that form.
   */
  lemma StepOnPage(w: Widget, p: Store.Page, e: Event)
    requires DistinctKeys(p.form) && CanHandle(w.shortcuts, e)
    ensures var q := Store.Set(p, w.field, Written(w, e));
      q.form == Step(w, p.form, e).1 && Store.Boot(q.search).form == q.form
  {
    var q := Store.Set(p, w.field, Written(w, e));
    assert q.form == Merge(p.form, Single(w.field, Written(w, e)));
  }

  /** The row and form after a sequence of events. */
  function Run(w: Widget, f: Form, es: seq<Event>): (r: (Widget, Form))
    requires DistinctKeys(f)
    requires forall e | e in es :: CanHandle(w.shortcuts, e)
    ensures r.0.field == w.field && r.0.shortcuts == w.shortcuts
    ensures DistinctKeys(r.1)
    decreases |es|
  {
    if |es| == 0 then (w, f)
    else
      var s := Step(w, f, es[0]);
      Run(s.0, s.1, es[1..])
  }

  /**
   * Whatever the user does to a mounted row, its selection stays valid (so at most one of its
   * buttons is shown as selected), its input shows what the store holds for its field, and no
   * other field changes.
   */
  lemma {:induction false} RunInvariant(w: Widget, f: Form, es: seq<Event>)
    requires DistinctKeys(f) && ValidSelection(w) && Synced(w, f)
    requires forall e | e in es :: CanHandle(w.shortcuts, e)
    ensures var r := Run(w, f, es);
      && ValidSelection(r.0)
      && Synced(r.0, r.1)
      && SelectedCount(Transform(r.0.shortcuts, r.0.selected)) <= 1
      && forall k | k != Key(w.field) :: Lookup(r.1, k) == Lookup(f, k)
    decreases |es|
  {
    var r := Run(w, f, es);
    TransformSelectedCount(r.0.shortcuts, r.0.selected);
    if |es| > 0 {
      var s := Step(w, f, es[0]);
      StepKeepsOtherFields(w, f, es[0]);
      var rest := es[1..];
      assert forall e | e in rest :: e in es;
      RunInvariant(s.0, s.1, rest);
      assert r == Run(s.0, s.1, rest);
    }
  }

  /**
   * A freshly mounted row starts inside the invariant of `RunInvariant`, so whatever the user
   * then does, its input keeps showing what the store holds and at most one button is selected.
   */
  lemma MountedRow(field: Field, shortcuts: seq<Shortcut>, f: Form, es: seq<Event>)
    requires DistinctKeys(f)
    requires forall e | e in es :: CanHandle(shortcuts, e)
    ensures var r := Run(Mount(field, shortcuts, f), f, es);
      && Synced(r.0, r.1)
      && SelectedCount(Transform(r.0.shortcuts, r.0.selected)) <= 1
  {
    RunInvariant(Mount(field, shortcuts, f), f, es);
  }

  /** Two events run one after the other. */
  lemma RunTwo(w: Widget, f: Form, a: Event, b: Event)
    requires DistinctKeys(f) && CanHandle(w.shortcuts, a) && CanHandle(w.shortcuts, b)
    ensures var s := Step(w, f, a); Run(w, f, [a, b]) == Step(s.0, s.1, b)
  {
    var s := Step(w, f, a);
    assert [a, b][1..] == [b] && [b][1..] == [];
    assert Run(w, f, [a, b]) == Run(s.0, s.1, [b]);
  }

  /** Clicking an unselected button twice selects it and then deselects it, leaving the field empty. */
  lemma ClickTwice(w: Widget, f: Form, i: nat)
    requires DistinctKeys(f) && i < |w.shortcuts| && w.selected != i
    ensures var r := Run(w, f, [Click(i), Click(i)]);
      r.0.selected == NoSelection && r.0.text == "" && Lookup(r.1, Key(w.field)) == Some("")
  {
    RunTwo(w, f, Click(i), Click(i));
    var s := Step(w, f, Click(i));
    StepEffect(w, f, Click(i));
    StepEffect(s.0, s.1, Click(i));
  }

  /**
   * Typing after a click keeps the clicked button shown as selected even though the field now
   * holds the typed text rather than the button's title.
   */
  lemma ClickThenType(w: Widget, f: Form, i: nat, t: string)
    requires DistinctKeys(f) && i < |w.shortcuts| && w.selected != i
    ensures var r := Run(w, f, [Click(i), Input(t)]);
      r.0.selected == i && r.0.text == t && Lookup(r.1, Key(w.field)) == Some(t)
  {
    RunTwo(w, f, Click(i), Input(t));
    var s := Step(w, f, Click(i));
    StepEffect(w, f, Click(i));
    StepEffect(s.0, s.1, Input(t));
  }
}
