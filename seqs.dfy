/**
 * Sequence helpers standing in for the JavaScript array and object idioms of the
 * source: `filter(x => ys.includes(x))`, `Array.from(new Set(xs))`,
 * `Array.prototype.join`, and plain objects used as insertion-ordered maps.
 */
module Seqs {
  import opened Wrappers

  predicate Distinct<T(==)>(s: seq<T>) {
    forall i, j :: 0 <= i < j < |s| ==> s[i] != s[j]
  }

  /** `a` can be obtained from `b` by deleting elements (order is kept). */
  predicate IsSubsequence<T(==)>(a: seq<T>, b: seq<T>)
    decreases |b|
  {
    if a == [] then true
    else if b == [] then false
    else if a[0] == b[0] then IsSubsequence(a[1..], b[1..])
    else IsSubsequence(a, b[1..])
  }

  /** The elements of a sequence as a set. */
  function Elems<T>(s: seq<T>): set<T> {
    set x | x in s
  }

  predicate IsPrefix<T(==)>(a: seq<T>, b: seq<T>) {
    |a| <= |b| && b[..|a|] == a
  }

  lemma PrefixTransitive<T>(a: seq<T>, b: seq<T>, c: seq<T>)
    requires IsPrefix(a, b) && IsPrefix(b, c)
    ensures IsPrefix(a, c)
  {
    assert c[..|a|] == c[..|b|][..|a|];
  }

  lemma PrefixAt<T>(a: seq<T>, b: seq<T>, i: nat)
    requires IsPrefix(a, b) && i < |a|
    ensures b[i] == a[i]
  {
    assert b[..|a|][i] == b[i];
  }

  lemma PrefixElems<T>(a: seq<T>, b: seq<T>)
    requires IsPrefix(a, b)
    ensures Elems(a) <= Elems(b)
  {
    forall x | x in a
      ensures x in b
    {
      var i :| 0 <= i < |a| && a[i] == x;
      assert b[i] == x;
    }
  }

  /** `xs.filter(x => ys.includes(x))`: the elements of `xs` that occur in `ys`, in the order of `xs`. */
  function Filter<T(==,!new)>(xs: seq<T>, ys: seq<T>): (r: seq<T>)
    ensures forall x :: x in r <==> x in xs && x in ys
    ensures IsSubsequence(r, xs)
    ensures |r| <= |xs|
  {
    if xs == [] then []
    else if xs[0] in ys then [xs[0]] + Filter(xs[1..], ys)
    else
      var rest := Filter(xs[1..], ys);
      assert rest != [] ==> rest[0] in ys;
      rest
  }

  /** Filtering keeps every element exactly when every element of `xs` occurs in `ys`. */
  lemma {:induction false} FilterKeepsAllIff<T(!new)>(xs: seq<T>, ys: seq<T>)
    ensures Filter(xs, ys) == xs <==> forall x :: x in xs ==> x in ys
  {
    if xs != [] {
      FilterKeepsAllIff(xs[1..], ys);
      if xs[0] !in ys {
        assert |Filter(xs[1..], ys)| <= |xs[1..]|;
      } else {
        assert forall x :: x in xs <==> x == xs[0] || x in xs[1..];
      }
    }
  }

  /** The position of the first occurrence of `x` in `xs`. */
  function FirstIndex<T(==)>(xs: seq<T>, x: T): (i: nat)
    requires x in xs
    ensures i < |xs| && xs[i] == x && x !in xs[..i]
  {
    if xs[0] == x then 0 else 1 + FirstIndex(xs[1..], x)
  }

  /**
   * `Array.from(new Set(xs))`: each element once, at the place of its first
   * occurrence (a JavaScript Set iterates in insertion order).
   */
  function Dedup<T(==,!new)>(xs: seq<T>): (r: seq<T>)
    ensures Distinct(r)
    ensures forall x :: x in r <==> x in xs
    ensures forall i, j :: 0 <= i < j < |r| ==> FirstIndex(xs, r[i]) < FirstIndex(xs, r[j])
    decreases |xs|
  {
    if xs == [] then []
    else
      var init := xs[..|xs| - 1];
      var last := xs[|xs| - 1];
      var r := Dedup(init);
      assert forall x :: x in xs <==> x in init || x == last;
      FirstIndexOfPrefix(init, xs);
      if last in r then r
      else
        assert FirstIndex(xs, last) == |xs| - 1;
        r + [last]
  }

  lemma FirstIndexOfPrefix<T>(init: seq<T>, xs: seq<T>)
    requires |xs| == |init| + 1 && xs[..|init|] == init
    ensures forall x :: x in init ==> FirstIndex(xs, x) == FirstIndex(init, x)
  {
    forall x | x in init ensures FirstIndex(xs, x) == FirstIndex(init, x) {
      var i, k := FirstIndex(xs, x), FirstIndex(init, x);
      assert xs[k] == x;
      assert init[..i] == xs[..i] by { assert i <= k; }
      assert xs[..k] == init[..k];
    }
  }

  /** `xs.join(sep)`. */
  function Join(xs: seq<string>, sep: string): string {
    if |xs| == 0 then ""
    else if |xs| == 1 then xs[0]
    else xs[0] + sep + Join(xs[1..], sep)
  }

  /** Joining one more element puts exactly one separator before it. */
  lemma {:induction false} JoinSnoc(xs: seq<string>, x: string, sep: string)
    requires xs != []
    ensures Join(xs + [x], sep) == Join(xs, sep) + sep + x
  {
    if |xs| == 1 {
      assert xs + [x] == [xs[0], x];
    } else {
      assert (xs + [x])[1..] == xs[1..] + [x];
      JoinSnoc(xs[1..], x, sep);
    }
  }

  /** One entry of a plain JavaScript object used as a map. */
  datatype Entry<V> = Entry(key: string, value: V)

  /** `Object.keys(m)`. */
  function Keys<V>(m: seq<Entry<V>>): (ks: seq<string>)
    ensures |ks| == |m| && forall i :: 0 <= i < |m| ==> ks[i] == m[i].key
  {
    if m == [] then [] else [m[0].key] + Keys(m[1..])
  }

  /** `m[k]`: the value stored under `k`, if any. */
  function Get<V>(m: seq<Entry<V>>, k: string): (r: Option<V>)
    ensures r.Some? <==> k in Keys(m)
    ensures r.Some? ==> Entry(k, r.value) in m
  {
    if m == [] then None
    else if m[0].key == k then Some(m[0].value)
    else Get(m[1..], k)
  }

  /**
   * `m[k] = v` on an object whose keys are not integer-like: a new key is
   * appended, an existing key keeps its place and takes the new value.
   */
  function Put<V>(m: seq<Entry<V>>, k: string, v: V): (r: seq<Entry<V>>)
    ensures Keys(r) == if k in Keys(m) then Keys(m) else Keys(m) + [k]
    ensures Get(r, k) == Some(v)
    ensures forall k' :: k' != k ==> Get(r, k') == Get(m, k')
  {
    if k in Keys(m) then Replace(m, k, v)
    else
      AppendNewKey(m, Entry(k, v));
      m + [Entry(k, v)]
  }

  /** The value of an existing key replaced where it stands. */
  function Replace<V>(m: seq<Entry<V>>, k: string, v: V): (r: seq<Entry<V>>)
    requires k in Keys(m)
    ensures Keys(r) == Keys(m)
    ensures Get(r, k) == Some(v)
    ensures forall k' :: k' != k ==> Get(r, k') == Get(m, k')
  {
    assert Keys(m) == [m[0].key] + Keys(m[1..]);
    if m[0].key == k then
      var r := [Entry(k, v)] + m[1..];
      assert r[1..] == m[1..];
      r
    else
      var rest := Replace(m[1..], k, v);
      var r := [m[0]] + rest;
      assert r[1..] == rest;
      r
  }

  /** Appending an entry of a new key adds the key at the end and changes no other key's value. */
  lemma AppendNewKey<V>(m: seq<Entry<V>>, e: Entry<V>)
    requires e.key !in Keys(m)
    ensures Keys(m + [e]) == Keys(m) + [e.key]
    ensures Get(m + [e], e.key) == Some(e.value)
    ensures forall k' :: k' != e.key ==> Get(m + [e], k') == Get(m, k')
  {
    KeysAppend(m, e);
    GetAppend(m, e);
  }

  lemma KeysAppend<V>(m: seq<Entry<V>>, e: Entry<V>)
    ensures Keys(m + [e]) == Keys(m) + [e.key]
  {
    var ks := Keys(m + [e]);
    assert forall i | 0 <= i < |m| :: ks[i] == m[i].key == Keys(m)[i];
  }

  lemma {:induction false} GetAppend<V>(m: seq<Entry<V>>, e: Entry<V>)
    requires e.key !in Keys(m)
    ensures Get(m + [e], e.key) == Some(e.value)
    ensures forall k' :: k' != e.key ==> Get(m + [e], k') == Get(m, k')
  {
    if m != [] {
      assert (m + [e])[1..] == m[1..] + [e];
      assert Keys(m) == [m[0].key] + Keys(m[1..]);
      GetAppend(m[1..], e);
    }
  }

  /**
   * Assigning the entries of an object with distinct keys one by one to an
   * empty object rebuilds it: after the first `i` assignments, the next one
   * appends entry `i`.
   */
  lemma PutNextEntry<V>(entries: seq<Entry<V>>, i: nat)
    requires Distinct(Keys(entries)) && i < |entries|
    ensures Put(entries[..i], entries[i].key, entries[i].value) == entries[..i + 1]
  {
    KeysOfPrefix(entries, i);
    DistinctNotInPrefix(Keys(entries), i);
    PrefixSnoc(entries, i);
  }

  lemma PrefixSnoc<T>(s: seq<T>, i: nat)
    requires i < |s|
    ensures s[..i + 1] == s[..i] + [s[i]]
  {
  }

  lemma KeysOfPrefix<V>(m: seq<Entry<V>>, n: nat)
    requires n <= |m|
    ensures Keys(m[..n]) == Keys(m)[..n]
  {
  }

  lemma DistinctNotInPrefix<T>(s: seq<T>, i: nat)
    requires Distinct(s) && i < |s|
    ensures s[i] !in s[..i]
  {
  }

  /** Assignment keeps the keys of an object distinct. */
  lemma {:induction false} PutKeepsKeysDistinct<V>(m: seq<Entry<V>>, k: string, v: V)
    requires Distinct(Keys(m))
    ensures Distinct(Keys(Put(m, k, v)))
  {
    var ks := Keys(Put(m, k, v));
    if k !in Keys(m) {
      assert ks == Keys(m) + [k];
      forall i, j | 0 <= i < j < |ks| ensures ks[i] != ks[j] {
        if j == |ks| - 1 {
          assert ks[i] in Keys(m);
        }
      }
    }
  }
}
