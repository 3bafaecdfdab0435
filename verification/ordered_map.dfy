/**
 A Python `dict`: a finite map from keys to values that also remembers the
 order in which its keys were first inserted. Iteration (`items()`) follows
 that order; rebinding a present key keeps its position; deleting a key and
 inserting it again moves it to the end.
 */
module OrderedMap {
  import opened Wrappers

  /** `keys` is the insertion order; `entries` the bindings. */
  datatype Dict<K(==, !new), V> = Dict(keys: seq<K>, entries: map<K, V>) {

    /** The key sequence lists every bound key exactly once. */
    ghost predicate Valid() {
      && (forall i, j :: 0 <= i < j < |keys| ==> keys[i] != keys[j])
      && (forall k :: k in entries <==> k in keys)
    }
  }

  /** `keys[i]` is the first key, in insertion order, bound to `v`. */
  ghost predicate FirstBoundAt<K(!new), V>(d: Dict<K, V>, v: V, i: int) {
    && 0 <= i < |d.keys|
    && d.keys[i] in d.entries
    && d.entries[d.keys[i]] == v
    && forall j :: 0 <= j < i ==> d.keys[j] in d.entries && d.entries[d.keys[j]] != v
  }

  /** `{}` */
  function Empty<K(==, !new), V>(): (d: Dict<K, V>)
    ensures d.Valid()
    ensures forall k :: k !in d.entries
  {
    Dict([], map[])
  }

  /** The position of `x` in `s`, which holds it. */
  function IndexOf<K(==, !new)>(s: seq<K>, x: K): (i: nat)
    requires x in s
    ensures i < |s| && s[i] == x
    ensures forall j :: 0 <= j < i ==> s[j] != x
  {
    if s[0] == x then 0 else 1 + IndexOf(s[1..], x)
  }

  /** `d[k] = v` */
  function Put<K(==, !new), V>(d: Dict<K, V>, k: K, v: V): (d': Dict<K, V>)
    requires d.Valid()
    ensures d'.Valid()
    ensures k in d'.entries && d'.entries[k] == v
    ensures forall j :: j != k ==> (j in d'.entries <==> j in d.entries)
    ensures forall j :: j != k && j in d.entries ==> d'.entries[j] == d.entries[j]
    // keys already present keep their positions; a new key goes last
    ensures k in d.entries ==> d'.keys == d.keys
    ensures k !in d.entries ==> d'.keys == d.keys + [k]
  {
    if k in d.entries then Dict(d.keys, d.entries[k := v])
    else Dict(d.keys + [k], d.entries[k := v])
  }

  /** Removing one position from a duplicate-free sequence leaves it duplicate-free. */
  lemma RemoveAtKeepsDistinct<K>(s: seq<K>, i: nat)
    requires i < |s|
    requires forall a, b :: 0 <= a < b < |s| ==> s[a] != s[b]
    ensures var t := s[..i] + s[i + 1..]; forall a, b :: 0 <= a < b < |t| ==> t[a] != t[b]
  {
    var t := s[..i] + s[i + 1..];
    forall a, b | 0 <= a < b < |t|
      ensures t[a] != t[b]
    {
      var a' := if a < i then a else a + 1;
      var b' := if b < i then b else b + 1;
      assert t[a] == s[a'] && t[b] == s[b'] && a' < b';
    }
  }

  /** Removing position `i` of a duplicate-free sequence removes exactly the element `s[i]`. */
  lemma RemoveAtMembers<K(!new)>(s: seq<K>, i: nat)
    requires i < |s|
    requires forall a, b :: 0 <= a < b < |s| ==> s[a] != s[b]
    ensures forall j :: j in s[..i] + s[i + 1..] <==> j in s && j != s[i]
  {
    var t := s[..i] + s[i + 1..];
    forall j
      ensures j in t <==> j in s && j != s[i]
    {
      if j in s && j != s[i] {
        var p :| 0 <= p < |s| && s[p] == j;
        if p < i { assert t[p] == j; } else { assert t[p - 1] == j; }
      }
    }
  }

  /** `del d[k]`; the key must be bound (Python raises `KeyError` otherwise). */
  function Delete<K(==, !new), V>(d: Dict<K, V>, k: K): (d': Dict<K, V>)
    requires d.Valid() && k in d.entries
    ensures d'.Valid()
    ensures k !in d'.entries
    ensures forall j :: j != k ==> (j in d'.entries <==> j in d.entries)
    ensures forall j :: j != k && j in d.entries ==> d'.entries[j] == d.entries[j]
    // the remaining keys keep their relative order
    ensures exists i :: 0 <= i < |d.keys| && d.keys[i] == k && d'.keys == d.keys[..i] + d.keys[i + 1..]
  {
    var i := IndexOf(d.keys, k);
    DeleteAtValid(d, i);
    Dict(d.keys[..i] + d.keys[i + 1..], d.entries - {k})
  }

  /** Deleting the key at position `i` leaves a well-formed dict. */
  lemma DeleteAtValid<K(!new), V>(d: Dict<K, V>, i: nat)
    requires d.Valid() && i < |d.keys|
    ensures Dict(d.keys[..i] + d.keys[i + 1..], d.entries - {d.keys[i]}).Valid()
  {
    RemoveAtKeepsDistinct(d.keys, i);
    RemoveAtMembers(d.keys, i);
  }

  /** The first key of `keys` (in order) bound to `v`, if any. */
  function FirstKeyIn<K(==, !new), V(==)>(keys: seq<K>, entries: map<K, V>, v: V): (r: Option<K>)
    requires forall k :: k in keys ==> k in entries
    ensures r.None? <==> forall i :: 0 <= i < |keys| ==> entries[keys[i]] != v
    ensures r.Some? ==> exists i :: 0 <= i < |keys| && keys[i] == r.value && entries[keys[i]] == v
                                    && forall j :: 0 <= j < i ==> entries[keys[j]] != v
  {
    if keys == [] then None
    else if entries[keys[0]] == v then Some(keys[0])
    else
      var r := FirstKeyIn(keys[1..], entries, v);
      if r.Some? then
        ghost var i :| 0 <= i < |keys[1..]| && keys[1..][i] == r.value && entries[keys[1..][i]] == v
                       && forall j :: 0 <= j < i ==> entries[keys[1..][j]] != v;
        assert keys[i + 1] == r.value && forall j :: 0 <= j < i + 1 ==> entries[keys[j]] != v by {
          forall j | 0 <= j < i + 1 ensures entries[keys[j]] != v {
            if j > 0 { assert keys[j] == keys[1..][j - 1]; }
          }
        }
        r
      else
        assert forall i :: 0 <= i < |keys| ==> entries[keys[i]] != v by {
          forall i | 0 <= i < |keys| ensures entries[keys[i]] != v {
            if i > 0 { assert keys[i] == keys[1..][i - 1]; }
          }
        }
        r
  }

  /**
   `next(k for k, w in d.items() if w == v)`: the first key in insertion
   order bound to `v`, or None where Python raises `StopIteration`.
   */
  function FirstKeyOf<K(==, !new), V(==)>(d: Dict<K, V>, v: V): (r: Option<K>)
    requires d.Valid()
    ensures r.None? <==> v !in d.entries.Values
    ensures r.Some? ==> exists i :: FirstBoundAt(d, v, i) && d.keys[i] == r.value
  {
    var r := FirstKeyIn(d.keys, d.entries, v);
    if r.None? then
      assert v !in d.entries.Values by {
        forall k | k in d.entries ensures d.entries[k] != v {
          var i := IndexOf(d.keys, k);
        }
      }
      r
    else r
  }
}
