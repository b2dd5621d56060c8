/**
  The feature record of app.py: a Python dict from field names to values.
  A dict keeps its keys in insertion order, and `generate_pdf` relies on that
  order, so a record is a sequence of fields whose keys are pairwise distinct.
 */
module Records {
  import opened Wrappers

  /** The values the page stores in the record: text, whole numbers, and the present price. */
  datatype Value = Str(s: string) | Int(i: int) | Num(r: real)

  datatype Field = Field(key: string, value: Value)

  ghost predicate DistinctKeys(fields: seq<Field>) {
    forall i, j :: 0 <= i < j < |fields| ==> fields[i].key != fields[j].key
  }

  /** A dict: no key occurs twice. */
  type Record = fields: seq<Field> | DistinctKeys(fields) witness []

  /** The keys in insertion order, as `d.keys()` lists them. */
  function Keys(fields: seq<Field>): seq<string> {
    seq(|fields|, i requires 0 <= i < |fields| => fields[i].key)
  }

  /** The position of key `k`, or `None` when the dict does not hold it. */
  function KeyIndex(fields: seq<Field>, k: string): (i: Option<nat>)
    ensures i.None? <==> k !in Keys(fields)
    ensures i.Some? ==> i.value < |fields| && fields[i.value].key == k
  {
    if fields == [] then None
    else if fields[0].key == k then
      assert Keys(fields)[0] == k;
      Some(0)
    else
      assert Keys(fields) == [fields[0].key] + Keys(fields[1..]);
      match KeyIndex(fields[1..], k)
      case None => None
      case Some(i) => Some(i + 1)
  }

  /** `d[k]`, with `None` where Python raises KeyError. */
  function Lookup(r: Record, k: string): (v: Option<Value>)
    ensures v.None? <==> k !in Keys(r)
    ensures v.Some? ==> exists i :: 0 <= i < |r| && r[i] == Field(k, v.value)
  {
    match KeyIndex(r, k)
    case None => None
    case Some(i) =>
      assert r[i] == Field(k, r[i].value);
      Some(r[i].value)
  }

  /**
    The assignment `d[k] = v`: an existing key keeps its position and gets the
    new value; a new key is appended at the end.
   */
  function SetField(r: Record, k: string, v: Value): (r': Record)
    ensures k in Keys(r) ==> Keys(r') == Keys(r)
    ensures k in Keys(r) ==> forall i :: 0 <= i < |r| ==>
      r'[i] == (if r[i].key == k then Field(k, v) else r[i])
    ensures k !in Keys(r) ==> r' == r + [Field(k, v)]
  {
    match KeyIndex(r, k)
    case None =>
      var r': seq<Field> := r + [Field(k, v)];
      assert forall j :: 0 <= j < |r| ==> r[j].key == Keys(r)[j] != k;
      r'
    case Some(i) =>
      var r': seq<Field> := r[i := Field(k, v)];
      assert forall j :: 0 <= j < |r| ==> r'[j].key == r[j].key;
      assert Keys(r') == Keys(r);
      r'
  }

  /** In a dict a key sits at one position only, and `KeyIndex` finds it. */
  lemma KeyIndexUnique(r: Record, k: string, j: nat)
    requires j < |r| && r[j].key == k
    ensures KeyIndex(r, k) == Some(j)
  {
    assert Keys(r)[j] == k;
  }

  /** Reading back a key just written gives the new value; every other key reads as before. */
  lemma LookupSetField(r: Record, k: string, v: Value, k': string)
    ensures Lookup(SetField(r, k, v), k') == if k' == k then Some(v) else Lookup(r, k')
  {
    var r' := SetField(r, k, v);
    var at := if k in Keys(r) then KeyIndex(r, k).value else |r|;
    assert r'[at] == Field(k, v);
    KeyIndexUnique(r', k, at);
    assert Keys(r') == Keys(r) || Keys(r') == Keys(r) + [k];
    if k' != k && k' in Keys(r) {
      var j := KeyIndex(r, k').value;
      assert r'[j] == r[j];
      KeyIndexUnique(r', k', j);
    }
  }

  /** Writing a key the value it already holds leaves the dict as it was. */
  lemma SetFieldSameValue(r: Record, k: string, v: Value)
    requires Lookup(r, k) == Some(v)
    ensures SetField(r, k, v) == r
  {
    var i := KeyIndex(r, k).value;
    assert r[i] == Field(k, v);
  }
}
