/** The citation numbers: `keyToNumber` and `counter` in the plugin's `init`.
    A key is numbered the first time it is seen and never again, so numbers
    follow the order of first appearance. */
module Numbering {

  /** `keyToNumber` (a Map, whose iteration follows insertion order) and `counter`. */
  datatype Registry = Registry(order: seq<string>, number: map<string, nat>, counter: nat)

  /** The state before the first marker is read: an empty map and `counter = 1`. */
  const Fresh: Registry := Registry([], map[], 1)

  predicate Distinct(s: seq<string>) {
    forall i, j :: 0 <= i < j < |s| ==> s[i] != s[j]
  }

  /** The shape both passes keep: the i-th key registered has number i + 1,
      the map holds exactly the registered keys, and `counter` is the next number. */
  predicate Valid(r: Registry) {
    && Distinct(r.order)
    && (forall i :: 0 <= i < |r.order| ==> r.order[i] in r.number && r.number[r.order[i]] == i + 1)
    && (forall k :: k in r.number ==> k in r.order)
    && r.counter == |r.order| + 1
  }

  /** Every key of the list has a number. */
  predicate Known(r: Registry, keys: seq<string>) {
    forall k :: k in keys ==> k in r.number
  }

  /** `if (!keyToNumber.has(k)) keyToNumber.set(k, counter++)`. */
  function Ensure(r: Registry, k: string): (r': Registry)
    requires Valid(r)
    ensures Valid(r')
    ensures k in r'.number
    ensures forall j :: j in r.number ==> j in r'.number && r'.number[j] == r.number[j]
    ensures k in r.number ==> r' == r
    ensures k !in r.number ==> r'.order == r.order + [k] && r'.number[k] == |r.order| + 1
  {
    if k in r.number then r
    else
      var r' := Registry(r.order + [k], r.number[k := r.counter], r.counter + 1);
      assert forall i :: 0 <= i < |r.order| ==> r'.order[i] == r.order[i];
      r'
  }

  /** Ensure every key of a list, first to last. */
  function EnsureAll(r: Registry, keys: seq<string>): (r': Registry)
    requires Valid(r)
    ensures Valid(r')
    ensures forall j :: j in r.number ==> j in r'.number && r'.number[j] == r.number[j]
    ensures Known(r', keys)
    decreases |keys|
  {
    if |keys| == 0 then r
    else
      var r' := EnsureAll(Ensure(r, keys[0]), keys[1..]);
      assert forall i :: 1 <= i < |keys| ==> keys[i] == keys[1..][i - 1];
      r'
  }

  /** Keys that are all registered leave the registry as it is: the rewrite
      pass's fallback numbering never fires after the discovery pass. */
  lemma {:induction false} EnsureAllKnown(r: Registry, keys: seq<string>)
    requires Valid(r)
    requires Known(r, keys)
    ensures EnsureAll(r, keys) == r
    decreases |keys|
  {
    if |keys| > 0 {
      EnsureAllKnown(r, keys[1..]);
    }
  }

  // ------------------------------------------------ first-appearance order

  /** The `used`/`usedSet` idiom: append each key not seen before. */
  function DedupFrom(acc: seq<string>, keys: seq<string>): (r: seq<string>)
    ensures |acc| <= |r| && r[..|acc|] == acc
    ensures forall x :: x in r <==> x in acc || x in keys
    decreases |keys|
  {
    if |keys| == 0 then acc
    else DedupFrom(if keys[0] in acc then acc else acc + [keys[0]], keys[1..])
  }

  /** The distinct keys of a list in order of first appearance. */
  function Dedup(keys: seq<string>): (r: seq<string>)
    ensures forall x :: x in r <==> x in keys
    ensures Distinct(r)
  {
    DedupFromDistinct([], keys);
    DedupFrom([], keys)
  }

  /** The distinct keys come in the order of their first use. */
  lemma DedupFirstUse(keys: seq<string>, i: nat, j: nat)
    requires i < j < |Dedup(keys)|
    ensures FirstIndex(keys, Dedup(keys)[i]) < FirstIndex(keys, Dedup(keys)[j])
  {
    DedupFromOrder([], keys, i, j);
  }

  lemma TailOfAppend(a: seq<string>, b: seq<string>)
    requires |a| > 0
    ensures (a + b)[0] == a[0] && (a + b)[1..] == a[1..] + b
  {
  }

  /** Deduplicating two lists one after the other is deduplicating their concatenation. */
  lemma {:induction false} DedupFromAppend(acc: seq<string>, a: seq<string>, b: seq<string>)
    ensures DedupFrom(DedupFrom(acc, a), b) == DedupFrom(acc, a + b)
    decreases |a|
  {
    if |a| > 0 {
      var acc' := if a[0] in acc then acc else acc + [a[0]];
      TailOfAppend(a, b);
      DedupFromAppend(acc', a[1..], b);
    } else {
      assert a + b == b;
    }
  }

  /** Registering keys lists exactly the new ones, in first-appearance order. */
  lemma {:induction false} EnsureAllOrder(r: Registry, keys: seq<string>)
    requires Valid(r)
    ensures EnsureAll(r, keys).order == DedupFrom(r.order, keys)
    decreases |keys|
  {
    if |keys| > 0 {
      var r1 := Ensure(r, keys[0]);
      EnsureAllOrder(r1, keys[1..]);
      assert keys[0] in r.number <==> keys[0] in r.order;
    }
  }

  lemma {:induction false} DedupFromDistinct(acc: seq<string>, keys: seq<string>)
    requires Distinct(acc)
    ensures Distinct(DedupFrom(acc, keys))
    decreases |keys|
  {
    if |keys| > 0 {
      var acc' := if keys[0] in acc then acc else acc + [keys[0]];
      DedupFromDistinct(acc', keys[1..]);
    }
  }

  /** Index of the first occurrence of `x`. */
  function FirstIndex(s: seq<string>, x: string): (i: nat)
    requires x in s
    ensures i < |s| && s[i] == x
    ensures forall j :: 0 <= j < i ==> s[j] != x
  {
    if s[0] == x then 0 else 1 + FirstIndex(s[1..], x)
  }

  /** The keys DedupFrom adds come in the order of their first occurrence. */
  lemma {:induction false} DedupFromOrder(acc: seq<string>, keys: seq<string>, i: nat, j: nat)
    requires Distinct(acc)
    requires |acc| <= i < j < |DedupFrom(acc, keys)|
    ensures DedupFrom(acc, keys)[i] in keys && DedupFrom(acc, keys)[j] in keys
    ensures FirstIndex(keys, DedupFrom(acc, keys)[i]) < FirstIndex(keys, DedupFrom(acc, keys)[j])
    decreases |keys|
  {
    var r := DedupFrom(acc, keys);
    DedupFromFresh(acc, keys, i);
    DedupFromFresh(acc, keys, j);
    var k0 := keys[0];
    if k0 in acc {
      DedupFromOrder(acc, keys[1..], i, j);
      FirstIndexTail(keys, r[i]);
      FirstIndexTail(keys, r[j]);
    } else {
      var acc' := acc + [k0];
      assert r == DedupFrom(acc', keys[1..]);
      DedupFromKeeps(acc', keys[1..], |acc|);
      DedupFromDiffer(acc, keys, |acc|, j);
      if i == |acc| {
        FirstIndexTail(keys, r[j]);
      } else {
        assert Distinct(acc') by {
          assert forall p :: 0 <= p < |acc| ==> acc'[p] == acc[p];
        }
        DedupFromOrder(acc', keys[1..], i, j);
        DedupFromDiffer(acc, keys, |acc|, i);
        FirstIndexTail(keys, r[i]);
        FirstIndexTail(keys, r[j]);
      }
    }
  }

  lemma DedupFromDiffer(acc: seq<string>, keys: seq<string>, a: nat, b: nat)
    requires Distinct(acc) && a < b < |DedupFrom(acc, keys)|
    ensures DedupFrom(acc, keys)[a] != DedupFrom(acc, keys)[b]
  {
    DedupFromDistinct(acc, keys);
  }

  lemma DedupFromKeeps(acc: seq<string>, keys: seq<string>, p: nat)
    requires p < |acc|
    ensures DedupFrom(acc, keys)[p] == acc[p]
  {
    var r := DedupFrom(acc, keys);
    assert r[..|acc|][p] == r[p];
  }

  /** What DedupFrom appends is new. */
  lemma DedupFromFresh(acc: seq<string>, keys: seq<string>, i: nat)
    requires Distinct(acc) && |acc| <= i < |DedupFrom(acc, keys)|
    ensures DedupFrom(acc, keys)[i] !in acc
  {
    var r := DedupFrom(acc, keys);
    DedupFromDistinct(acc, keys);
    forall p | 0 <= p < |acc|
      ensures acc[p] != r[i]
    {
      DedupFromKeeps(acc, keys, p);
    }
  }

  lemma FirstIndexTail(s: seq<string>, x: string)
    requires x in s && s[0] != x
    ensures x in s[1..] && FirstIndex(s, x) == 1 + FirstIndex(s[1..], x)
  {
  }

  /** A registered key sits in the order at the place its number says. */
  lemma NumberPlace(r: Registry, k: string) returns (i: nat)
    requires Valid(r) && k in r.number
    ensures i < |r.order| && r.order[i] == k && r.number[k] == i + 1
  {
    i :| 0 <= i < |r.order| && r.order[i] == k;
  }

  /** In a registry that lists the keys of a list in first-appearance order,
      a key numbered before another first appears before it. */
  lemma NumberedBefore(r: Registry, keys: seq<string>, a: string, b: string)
    requires Valid(r) && r.order == DedupFrom([], keys)
    requires a in r.number && b in r.number && r.number[a] < r.number[b]
    ensures a in keys && b in keys
    ensures FirstIndex(keys, a) < FirstIndex(keys, b)
  {
    var i := NumberPlace(r, a);
    var j := NumberPlace(r, b);
    DedupFromOrder([], keys, i, j);
  }

  /** Registering a list of keys from scratch numbers them 1, 2, 3, ... in the
      order of their first appearance: `a` gets a smaller number than `b`
      exactly when `a` first appears before `b` does. */
  lemma FirstAppearance(keys: seq<string>, a: string, b: string)
    requires a in keys && b in keys
    ensures a in EnsureAll(Fresh, keys).number && b in EnsureAll(Fresh, keys).number
    ensures EnsureAll(Fresh, keys).number[a] < EnsureAll(Fresh, keys).number[b]
        <==> FirstIndex(keys, a) < FirstIndex(keys, b)
  {
    var r := EnsureAll(Fresh, keys);
    EnsureAllOrder(Fresh, keys);
    if r.number[a] < r.number[b] {
      NumberedBefore(r, keys, a, b);
    } else if r.number[b] < r.number[a] {
      NumberedBefore(r, keys, b, a);
    } else {
      var i := NumberPlace(r, a);
      var j := NumberPlace(r, b);
    }
  }

  /** Numbers are consecutive from 1: every registered key has a number
      between 1 and the count, and no two keys share one. */
  lemma NumbersConsecutive(r: Registry, a: string, b: string)
    requires Valid(r)
    requires a in r.number && b in r.number && a != b
    ensures 1 <= r.number[a] <= |r.order| && 1 <= r.number[b] <= |r.order|
    ensures r.number[a] != r.number[b]
  {
    var i :| 0 <= i < |r.order| && r.order[i] == a;
    var j :| 0 <= j < |r.order| && r.order[j] == b;
  }
}
