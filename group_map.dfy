/**
 * The field-to-group dictionary `group_map` built while parsing the headers.
 * A Python dict keeps insertion order, and assigning to an existing key
 * overwrites the value but keeps the key where it was; the association list
 * below behaves the same way.
 */
module GroupMaps {
  import opened Cells
  import opened Seqs

  /** (field, group) pairs in insertion order. */
  type GroupMap = seq<(string, string)>

  /** `list(m.keys())`. */
  function Keys(m: GroupMap): (ks: seq<string>)
    ensures |ks| == |m|
  {
    if m == [] then [] else [m[0].0] + Keys(m[1..])
  }

  predicate KeysDistinct(m: GroupMap) {
    NoDup(Keys(m))
  }

  /** `m.get(k)`. */
  function Lookup(m: GroupMap, k: string): (r: Option<string>)
    ensures r.Some? <==> k in Keys(m)
    ensures r.Some? ==> (k, r.value) in m
  {
    if m == [] then None else if m[0].0 == k then Some(m[0].1) else Lookup(m[1..], k)
  }

  /** `m[k] = v`: a new key goes to the end, an existing key keeps its place and takes the new value. */
  function Put(m: GroupMap, k: string, v: string): (r: GroupMap)
    ensures Keys(r) == if k in Keys(m) then Keys(m) else Keys(m) + [k]
    ensures Lookup(r, k) == Some(v)
  {
    if m == [] then [(k, v)]
    else if m[0].0 == k then
      assert ([(k, v)] + m[1..])[1..] == m[1..];
      [(k, v)] + m[1..]
    else
      var rest := Put(m[1..], k, v);
      assert ([m[0]] + rest)[1..] == rest;
      assert Keys(m) == [m[0].0] + Keys(m[1..]);
      [m[0]] + rest
  }

  /** `m[k] = v` leaves every other key's value as it was. */
  lemma {:induction false} PutOthers(m: GroupMap, k: string, v: string, k': string)
    requires k' != k
    ensures Lookup(Put(m, k, v), k') == Lookup(m, k')
  {
    if m != [] && m[0].0 != k {
      var rest := Put(m[1..], k, v);
      assert ([m[0]] + rest)[1..] == rest;
      PutOthers(m[1..], k, v, k');
    }
  }

  /** `m[k] = v` stores no pair other than `(k, v)` and those already stored. */
  lemma {:induction false} PutEntries(m: GroupMap, k: string, v: string, e: (string, string))
    requires e in Put(m, k, v)
    ensures e == (k, v) || e in m
  {
    if m != [] && m[0].0 != k {
      var rest := Put(m[1..], k, v);
      assert ([m[0]] + rest)[1..] == rest;
      if e != m[0] {
        PutEntries(m[1..], k, v, e);
      }
    }
  }

  /** With distinct keys, a stored pair is exactly what Lookup returns. */
  lemma {:induction false} LookupStored(m: GroupMap, k: string, v: string)
    requires KeysDistinct(m)
    ensures (k, v) in m <==> Lookup(m, k) == Some(v)
  {
    if m != [] {
      var ks := Keys(m[1..]);
      assert Keys(m) == [m[0].0] + ks;
      forall i, j | 0 <= i < j < |ks|
        ensures ks[i] != ks[j]
      {
        assert ks[i] == Keys(m)[i + 1] && ks[j] == Keys(m)[j + 1];
      }
      LookupStored(m[1..], k, v);
      if m[0].0 == k {
        forall j | 0 <= j < |ks|
          ensures ks[j] != k
        {
          assert Keys(m)[0] == k && ks[j] == Keys(m)[j + 1];
        }
        KeyNotStored(m[1..], (k, v));
      }
      assert m == [m[0]] + m[1..];
    }
  }

  lemma KeyNotStored(m: GroupMap, e: (string, string))
    requires e.0 !in Keys(m)
    ensures e !in m
  {
    if e in m {
      StoredKeyListed(m, e);
    }
  }

  lemma {:induction false} StoredKeyListed(m: GroupMap, e: (string, string))
    requires e in m
    ensures e.0 in Keys(m)
  {
    if m[0] != e {
      StoredKeyListed(m[1..], e);
    }
  }

  /** `[c for c, g in m.items() if g == group]`: the fields of one group, in dictionary order. */
  function FieldsOf(m: GroupMap, group: string): (fs: seq<string>)
    ensures IsSubsequence(fs, Keys(m))
    ensures forall f :: f in fs <==> (f, group) in m
  {
    if m == [] then []
    else
      var rest := FieldsOf(m[1..], group);
      assert Keys(m)[1..] == Keys(m[1..]);
      assert m == [m[0]] + m[1..];
      if m[0].1 == group then
        assert ([m[0].0] + rest)[1..] == rest;
        [m[0].0] + rest
      else rest
  }

  /** Under distinct keys a field is listed at most once for its group. */
  lemma {:induction false} FieldsOfNoDup(m: GroupMap, group: string)
    requires KeysDistinct(m)
    ensures NoDup(FieldsOf(m, group))
  {
    if m != [] {
      assert Keys(m)[1..] == Keys(m[1..]);
      assert Keys(m) == [m[0].0] + Keys(m[1..]);
      assert Keys(m)[1..] == Keys(m[1..]);
      if (m[0].0, group) in m[1..] {
        StoredKeyListed(m[1..], (m[0].0, group));
      }
      FieldsOfNoDup(m[1..], group);
    }
  }
}
