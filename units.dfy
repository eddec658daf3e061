/**
 * Translation variants and translation units: the minimal part of the
 * unit library that the TMX document relies on.  A unit is a value made
 * of its identity part (`Head`) and its ordered list of variants; the
 * document only ever changes the variants of a unit it already holds.
 */
module Units {
  import opened Wrappers

  /**
   * One translation: a locale and the text in that locale.  The text is
   * unset (JavaScript `undefined`) when it was read past the end of a
   * list of target segments.
   */
  datatype Variant = Variant(locale: string, text: Option<string>)

  /** Everything a unit carries apart from its variants. */
  datatype Head = Head(
    sourceLocale: Option<string>,
    source: Option<string>,
    dataType: Option<string>,
    properties: Props,
    comment: Option<string>)

  datatype Unit = Unit(head: Head, variants: seq<Variant>)

  /** An insertion-ordered property bag, as a JavaScript object with string keys. */
  type Props = seq<(string, string)>

  /** The identity key of a unit's head; the unit library's hashKey, left uninterpreted. */
  type KeyFn = Head -> string

  function Keys<V>(p: seq<(string, V)>): (ks: seq<string>)
  {
    seq(|p|, i requires 0 <= i < |p| => p[i].0)
  }

  predicate UniqueKeys<V>(p: seq<(string, V)>) {
    forall i, j :: 0 <= i < j < |p| ==> p[i].0 != p[j].0
  }

  /** Reading `obj[k]`: the value stored under `k`, if any. */
  function Get<V>(p: seq<(string, V)>, k: string): (r: Option<V>)
    ensures r.Some? ==> (k, r.value) in p
  {
    if p == [] then None
    else if p[0].0 == k then Some(p[0].1) else Get(p[1..], k)
  }

  /** A key reads a value exactly when it is one of the bag's keys. */
  lemma {:induction false} GetKeys<V>(p: seq<(string, V)>, k: string)
    ensures Get(p, k).Some? <==> k in Keys(p)
  {
    if p != [] {
      assert Keys(p) == [p[0].0] + Keys(p[1..]);
      GetKeys(p[1..], k);
    }
  }

  /**
   * Writing `obj[k] = v`: an existing key keeps its position and takes
   * the new value, a new key goes to the end.
   */
  function Put<V>(p: seq<(string, V)>, k: string, v: V): (r: seq<(string, V)>)
    ensures Get(r, k) == Some(v)
    ensures forall k' :: k' != k ==> Get(r, k') == Get(p, k')
    ensures k in Keys(p) ==> Keys(r) == Keys(p)
    ensures k !in Keys(p) ==> Keys(r) == Keys(p) + [k]
    ensures forall kv :: kv in r ==> kv in p || kv == (k, v)
  {
    if p == [] then [(k, v)]
    else if p[0].0 == k then
      assert Keys(p) == [k] + Keys(p[1..]);
      assert Keys([(k, v)] + p[1..]) == [k] + Keys(p[1..]);
      [(k, v)] + p[1..]
    else
      var r' := Put(p[1..], k, v);
      assert Keys(p) == [p[0].0] + Keys(p[1..]);
      assert Keys([p[0]] + r') == [p[0].0] + Keys(r');
      [p[0]] + r'
  }

  /** Writing into a bag with unique keys keeps its keys unique. */
  lemma PutUnique<V>(p: seq<(string, V)>, k: string, v: V)
    requires UniqueKeys(p)
    ensures UniqueKeys(Put(p, k, v))
  {
    var r := Put(p, k, v);
    forall i, j | 0 <= i < j < |r| ensures r[i].0 != r[j].0 {
      assert Keys(r)[i] == r[i].0 && Keys(r)[j] == r[j].0;
    }
  }

  /** With unique keys, each entry is what reading its own key gives. */
  lemma {:induction false} GetAt<V>(p: seq<(string, V)>, i: nat)
    requires UniqueKeys(p) && i < |p|
    ensures Get(p, p[i].0) == Some(p[i].1)
    decreases i
  {
    if i > 0 {
      assert p[1..][i - 1] == p[i];
      GetAt(p[1..], i - 1);
    }
  }

  /**
   * The unit library's addProperties: each entry whose value is truthy
   * is written into the bag, in the order given; the others are skipped.
   */
  function AddProperties(p: Props, q: seq<(string, Option<string>)>): (r: Props)
    ensures forall kv :: kv in r ==> kv in p || kv.1 != ""
    decreases |q|
  {
    if q == [] then p
    else
      var (k, v) := q[|q| - 1];
      var r0 := AddProperties(p, q[..|q| - 1]);
      if Truthy(v) then Put(r0, k, v.value) else r0
  }

  /** After addProperties, a key given no truthy value reads what it read before. */
  lemma {:induction false} AddPropertiesKeep(p: Props, q: seq<(string, Option<string>)>, k: string)
    requires forall j :: 0 <= j < |q| && q[j].0 == k ==> !Truthy(q[j].1)
    ensures Get(AddProperties(p, q), k) == Get(p, k)
    decreases |q|
  {
    if q != [] {
      var n := |q| - 1;
      assert forall j :: 0 <= j < n ==> q[..n][j] == q[j];
      AddPropertiesKeep(p, q[..n], k);
    }
  }

  /** After addProperties, a key reads the last truthy value given for it. */
  lemma {:induction false} AddPropertiesLast(p: Props, q: seq<(string, Option<string>)>, k: string, j: nat)
    requires j < |q| && q[j].0 == k && Truthy(q[j].1)
    requires forall j' :: j < j' < |q| && q[j'].0 == k ==> !Truthy(q[j'].1)
    ensures Get(AddProperties(p, q), k) == q[j].1
    decreases |q|
  {
    var n := |q| - 1;
    if j < n {
      assert forall j' :: j < j' < n ==> q[..n][j'] == q[j'];
      AddPropertiesLast(p, q[..n], k, j);
    }
  }

  /** Entries whose values are all unset or empty leave the bag as it is. */
  lemma {:induction false} AddPropertiesUnset(p: Props, q: seq<(string, Option<string>)>)
    requires forall kv :: kv in q ==> !Truthy(kv.1)
    ensures AddProperties(p, q) == p
    decreases |q|
  {
    if q != [] {
      assert forall kv :: kv in q[..|q| - 1] ==> kv in q;
      AddPropertiesUnset(p, q[..|q| - 1]);
      assert q[|q| - 1] in q;
    }
  }

  predicate NoDup<T(==)>(s: seq<T>) {
    forall i, j :: 0 <= i < j < |s| ==> s[i] != s[j]
  }

  /** The unit library's addVariant: an exact (locale, text) duplicate is skipped. */
  function AddVariant(vs: seq<Variant>, v: Variant): (r: seq<Variant>)
    ensures NoDup(vs) ==> NoDup(r)
    ensures forall x :: x in r <==> x in vs || x == v
    ensures |vs| <= |r| <= |vs| + 1 && r[..|vs|] == vs
    ensures |r| == |vs| <==> v in vs
  {
    if v in vs then vs else vs + [v]
  }

  /** The unit library's addVariants: addVariant of each new variant in order. */
  function AddVariants(vs: seq<Variant>, ws: seq<Variant>): (r: seq<Variant>)
    ensures NoDup(vs) ==> NoDup(r)
    ensures forall x :: x in r <==> x in vs || x in ws
    ensures |vs| <= |r| && r[..|vs|] == vs
    decreases |ws|
  {
    if ws == [] then vs
    else AddVariant(AddVariants(vs, ws[..|ws| - 1]), ws[|ws| - 1])
  }

  /** One more variant to merge is one more addVariant after the others. */
  lemma AddVariantsSnoc(vs: seq<Variant>, ws: seq<Variant>, w: Variant)
    ensures AddVariants(vs, ws + [w]) == AddVariant(AddVariants(vs, ws), w)
  {
    assert (ws + [w])[..|ws|] == ws;
  }

  /** Merging in variants that are all present already changes nothing. */
  lemma {:induction false} AddVariantsNoop(vs: seq<Variant>, ws: seq<Variant>)
    requires forall w :: w in ws ==> w in vs
    ensures AddVariants(vs, ws) == vs
    decreases |ws|
  {
    if ws != [] {
      var init := ws[..|ws| - 1];
      forall w | w in init ensures w in vs { assert w in ws; }
      AddVariantsNoop(vs, init);
      assert ws[|ws| - 1] in ws;
    }
  }

  /** Merging the same variants twice is the same as merging them once. */
  lemma AddVariantsIdempotent(vs: seq<Variant>, ws: seq<Variant>)
    ensures AddVariants(AddVariants(vs, ws), ws) == AddVariants(vs, ws)
  {
    AddVariantsNoop(AddVariants(vs, ws), ws);
  }

  /**
   * Variants that are new and distinct are appended after the ones held,
   * in the order given.
   */
  lemma {:induction false} AddVariantsFresh(vs: seq<Variant>, ws: seq<Variant>)
    requires NoDup(ws) && forall w :: w in ws ==> w !in vs
    ensures AddVariants(vs, ws) == vs + ws
    decreases |ws|
  {
    if ws != [] {
      var n := |ws| - 1;
      var init := ws[..n];
      NoDupInit(ws);
      assert forall w :: w in init ==> w in ws;
      AddVariantsFresh(vs, init);
      assert ws[n] in ws;
      assert ws[n] !in vs && ws[n] !in init;
      AppendSnoc(vs, ws);
      calc {
        AddVariants(vs, ws);
        AddVariant(AddVariants(vs, init), ws[n]);
        AddVariant(vs + init, ws[n]);
        (vs + init) + [ws[n]];
      }
    }
  }

  lemma AppendSnoc<T>(a: seq<T>, ws: seq<T>)
    requires ws != []
    ensures a + ws == (a + ws[..|ws| - 1]) + [ws[|ws| - 1]]
  {
    assert ws == ws[..|ws| - 1] + [ws[|ws| - 1]];
  }

  lemma NoDupInit<T>(ws: seq<T>)
    requires NoDup(ws) && ws != []
    ensures NoDup(ws[..|ws| - 1]) && ws[|ws| - 1] !in ws[..|ws| - 1]
  {
    var n := |ws| - 1;
    assert forall i :: 0 <= i < n ==> ws[..n][i] == ws[i];
  }

  /** Adding a duplicate-free list to nothing, one by one, gives back that list. */
  lemma AddVariantsFromEmpty(ws: seq<Variant>)
    requires NoDup(ws)
    ensures AddVariants([], ws) == ws
  {
    AddVariantsFresh([], ws);
  }
}
