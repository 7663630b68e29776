/**
 * The form store's value and its update. The store holds a flat JavaScript object whose
 * properties are the form's fields, each with a string value; an absent property is an unset
 * field. Objects remember the order in which their properties were first created, and
 * `JSON.stringify` writes them in that order, so the value is modelled as an ordered list of
 * entries with distinct keys rather than as a map.
 */
module FormState {
  import opened Wrappers

  /** The closed schema of fields (`FormState` in src/pages/spc.tsx). */
  datatype Field =
    | Name | Age | Gender | SexualOrientation | Zip | Race | ServedInMilitary | MilitaryFamily
    | HowDidYouHear | SafetyPlan | Notes | Thoughts | HarmToday | Plan | Means | Timeline
    | SriStart | PriorThoughts | PriorAttempts | Intoxicated | Gun | Diagnosis | Prescription
    | Homicidal | SriEnd

  /** The property name a field is stored under. */
  function Key(f: Field): string {
    match f
    case Name => "name"
    case Age => "age"
    case Gender => "gender"
    case SexualOrientation => "sexualOrientation"
    case Zip => "zip"
    case Race => "race"
    case ServedInMilitary => "servedInMilitary"
    case MilitaryFamily => "militaryFamily"
    case HowDidYouHear => "howDidYouHear"
    case SafetyPlan => "safetyPlan"
    case Notes => "notes"
    case Thoughts => "thoughts"
    case HarmToday => "harmToday"
    case Plan => "plan"
    case Means => "means"
    case Timeline => "timeline"
    case SriStart => "sriStart"
    case PriorThoughts => "priorThoughts"
    case PriorAttempts => "priorAttempts"
    case Intoxicated => "intoxicated"
    case Gun => "gun"
    case Diagnosis => "diagnosis"
    case Prescription => "prescription"
    case Homicidal => "homicidal"
    case SriEnd => "sriEnd"
  }

  /** Distinct fields are stored under distinct property names. */
  lemma KeyInjective(a: Field, b: Field)
    requires a != b
    ensures Key(a) != Key(b)
  {}

  /**
   * One property. Keys are arbitrary strings: the store is filled from `JSON.parse` with an
   * unchecked cast, so a URL can bring in properties outside the schema, and they are kept.
   */
  datatype Entry = Entry(key: string, value: string)

  /** An object's own properties in creation order. */
  type Form = seq<Entry>

  function Keys(f: Form): (ks: seq<string>)
    ensures |ks| == |f|
    ensures forall i | 0 <= i < |f| :: ks[i] == f[i].key
  {
    if |f| == 0 then [] else [f[0].key] + Keys(f[1..])
  }

  /** A JavaScript object never has two properties with the same key. */
  predicate DistinctKeys(f: Form) {
    forall i, j | 0 <= i < j < |f| :: f[i].key != f[j].key
  }

  lemma DistinctCons(e: Entry, t: Form)
    ensures DistinctKeys([e] + t) <==> e.key !in Keys(t) && DistinctKeys(t)
  {
    var f := [e] + t;
    assert f[1..] == t;
    if e.key in Keys(t) {
      var j :| 0 <= j < |t| && Keys(t)[j] == e.key;
      assert f[0].key == f[j + 1].key;
    }
    if DistinctKeys(f) {
      forall i, j | 0 <= i < j < |t|
        ensures t[i].key != t[j].key
      {
        assert f[i + 1] == t[i] && f[j + 1] == t[j];
      }
    }
  }

  /** `f[k]`: the value stored under `k`, or `None` for `undefined`. */
  function Lookup(f: Form, k: string): (r: Option<string>)
    ensures r.Some? <==> k in Keys(f)
  {
    if |f| == 0 then None
    else if f[0].key == k then Some(f[0].value)
    else Lookup(f[1..], k)
  }

  /** In an object, each property's value is what a lookup of its key finds. */
  lemma {:induction false} LookupAt(f: Form, i: nat)
    requires DistinctKeys(f) && i < |f|
    ensures Lookup(f, f[i].key) == Some(f[i].value)
  {
    if i > 0 {
      LookupAt(f[1..], i - 1);
    }
  }

  /**
   * Property assignment `f[k] = v`: an existing property keeps its position, a new one is
   * appended after all others.
   */
  function Put(f: Form, k: string, v: string): (r: Form)
    requires DistinctKeys(f)
    ensures DistinctKeys(r)
    ensures Keys(r) == if k in Keys(f) then Keys(f) else Keys(f) + [k]
  {
    if |f| == 0 then [Entry(k, v)]
    else
      assert f == [f[0]] + f[1..];
      DistinctCons(f[0], f[1..]);
      if f[0].key == k then
        var r := [Entry(k, v)] + f[1..];
        DistinctCons(Entry(k, v), f[1..]);
        assert Keys(r) == [k] + Keys(f[1..]);
        r
      else
        var t := Put(f[1..], k, v);
        var r := [f[0]] + t;
        assert r[1..] == t;
        assert Keys(r) == [f[0].key] + Keys(t);
        DistinctCons(f[0], t);
        r
  }

  /** After `f[k] = v`, key `k` holds `v` and every other key holds what it held before. */
  lemma {:induction false} PutLookup(f: Form, k: string, v: string, k': string)
    requires DistinctKeys(f)
    ensures Lookup(Put(f, k, v), k') == if k' == k then Some(v) else Lookup(f, k')
  {
    if |f| > 0 && f[0].key != k {
      assert f == [f[0]] + f[1..];
      DistinctCons(f[0], f[1..]);
      PutLookup(f[1..], k, v, k');
    }
  }

  /** Assigning a key the object lacks appends exactly one property. */
  lemma {:induction false} PutNew(f: Form, k: string, v: string)
    requires DistinctKeys(f) && k !in Keys(f)
    ensures Put(f, k, v) == f + [Entry(k, v)]
  {
    if |f| > 0 {
      assert f == [f[0]] + f[1..];
      DistinctCons(f[0], f[1..]);
      PutNew(f[1..], k, v);
    }
  }

  /**
   * `{ ...s, ...p }`: a copy of `s` with each property of `p` assigned in `p`'s order. The
   * properties of `s` keep their positions and the new keys follow them.
   */
  function Merge(s: Form, p: Form): (r: Form)
    requires DistinctKeys(s) && DistinctKeys(p)
    ensures DistinctKeys(r)
    ensures |r| >= |s| && Keys(r)[..|s|] == Keys(s)
    decreases |p|
  {
    if |p| == 0 then s
    else
      assert p == [p[0]] + p[1..];
      DistinctCons(p[0], p[1..]);
      var s' := Put(s, p[0].key, p[0].value);
      assert Keys(s')[..|s|] == Keys(s);
      Merge(s', p[1..])
  }

  /**
   * After `{ ...s, ...p }`, a key present in `p` holds `p`'s value (an empty string included),
   * and every other key holds exactly what `s` held, absence included.
   */
  lemma {:induction false} MergeLookup(s: Form, p: Form, k: string)
    requires DistinctKeys(s) && DistinctKeys(p)
    ensures Lookup(Merge(s, p), k) == if k in Keys(p) then Lookup(p, k) else Lookup(s, k)
    decreases |p|
  {
    if |p| > 0 {
      assert p == [p[0]] + p[1..];
      DistinctCons(p[0], p[1..]);
      assert Keys(p) == [p[0].key] + Keys(p[1..]);
      PutLookup(s, p[0].key, p[0].value, k);
      MergeLookup(Put(s, p[0].key, p[0].value), p[1..], k);
    }
  }

  /** The form with only field `k` set to `v`: `{ [formKey]: value }`. */
  function Single(k: Field, v: string): (p: Form)
    ensures DistinctKeys(p) && Lookup(p, Key(k)) == Some(v)
    ensures forall key | key != Key(k) :: Lookup(p, key) == None
  {
    [Entry(Key(k), v)]
  }

  /** `updateForm({ [formKey]: value })`: field `k` holds `v` and nothing else changes. */
  function SetField(s: Form, k: Field, v: string): (r: Form)
    requires DistinctKeys(s)
    ensures DistinctKeys(r)
    ensures Lookup(r, Key(k)) == Some(v)
    ensures forall k' | k' != Key(k) :: Lookup(r, k') == Lookup(s, k')
  {
    var r := Merge(s, Single(k, v));
    assert Keys(Single(k, v)) == [Key(k)];
    assert forall k' :: Lookup(r, k') == if k' == Key(k) then Some(v) else Lookup(s, k') by {
      forall k' ensures Lookup(r, k') == if k' == Key(k) then Some(v) else Lookup(s, k') {
        MergeLookup(s, Single(k, v), k');
      }
    }
    r
  }

  /** Merging the same partial form twice has the effect of merging it once. */
  lemma MergeIdempotent(s: Form, p: Form)
    requires DistinctKeys(s) && DistinctKeys(p)
    ensures Merge(Merge(s, p), p) == Merge(s, p)
  {
    var once := Merge(s, p);
    var twice := Merge(once, p);
    forall k ensures Lookup(once, k) == Lookup(twice, k) {
      MergeLookup(s, p, k);
      MergeLookup(once, p, k);
    }
    SameLookupsSameKeys(once, twice);
  }

  /**
   * Two objects with the same lookups whose keys one is a prefix of the other are equal: the
   * key order and values fully determine an object.
   */
  lemma {:induction false} SameLookupsSameKeys(a: Form, b: Form)
    requires DistinctKeys(a) && DistinctKeys(b)
    requires |a| <= |b| && Keys(b)[..|a|] == Keys(a)
    requires forall k :: Lookup(a, k) == Lookup(b, k)
    ensures a == b
  {
    if |a| < |b| {
      var k := b[|a|].key;
      LookupAt(b, |a|);
    }
    forall i | 0 <= i < |a|
      ensures a[i] == b[i]
    {
      assert Keys(b)[i] == Keys(a)[i];
      LookupAt(a, i);
      LookupAt(b, i);
    }
  }
}
