/**
 * The document's unit list and its key index, as values.
 *
 * The index maps a unit's identity key to the unit it was registered
 * with.  A registered unit is either still in the list, at a known
 * position (`Live`), or no longer in it because the list was replaced
 * after registration (`Detached`); merging into a detached unit changes
 * nothing the document can show.
 */
module Store {
  import opened Wrappers
  import opened Units

  datatype Entry = Live(index: nat) | Detached

  datatype Body = Body(tu: seq<Unit>, tuhash: map<string, Entry>)

  /** Every live index entry points into the list, at a unit with that key. */
  predicate WellFormed(b: Body, key: KeyFn) {
    forall k :: k in b.tuhash && b.tuhash[k].Live? ==>
      b.tuhash[k].index < |b.tu| && key(b.tu[b.tuhash[k].index].head) == k
  }

  /** Every unit in the list is registered in the index, at its own position. */
  predicate Indexed(b: Body, key: KeyFn) {
    forall i :: 0 <= i < |b.tu| ==>
      key(b.tu[i].head) in b.tuhash && b.tuhash[key(b.tu[i].head)] == Live(i)
  }

  /**
   * b2 extends b1: no unit removed, heads unchanged, variants only added,
   * and every index entry kept.
   */
  predicate Grows(b1: Body, b2: Body) {
    && |b1.tu| <= |b2.tu|
    && (forall i :: 0 <= i < |b1.tu| ==>
          b2.tu[i].head == b1.tu[i].head
          && forall v :: v in b1.tu[i].variants ==> v in b2.tu[i].variants)
    && (forall k :: k in b1.tuhash ==> k in b2.tuhash && b2.tuhash[k] == b1.tuhash[k])
  }

  lemma GrowsTrans(b1: Body, b2: Body, b3: Body)
    requires Grows(b1, b2) && Grows(b2, b3)
    ensures Grows(b1, b3)
  {
  }

  /** Where a unit lands when merged in: Some(position) if appended, None if merged into another. */
  function Slot(b: Body, u: Unit, key: KeyFn): Option<nat> {
    if key(u.head) in b.tuhash then None else Some(|b.tu|)
  }

  /**
   * addTranslationUnit on values: a unit with a new key is appended and
   * registered; otherwise its variants are merged into the unit already
   * registered under that key.
   */
  function Insert(b: Body, u: Unit, key: KeyFn): (r: Body)
    requires WellFormed(b, key)
    ensures WellFormed(r, key)
    ensures Indexed(b, key) ==> Indexed(r, key)
    ensures Grows(b, r)
    ensures r.tuhash.Keys == b.tuhash.Keys + {key(u.head)}
    ensures |r.tu| == |b.tu| + (if Slot(b, u, key).Some? then 1 else 0)
    ensures Slot(b, u, key).Some? ==> r.tu[|b.tu|] == u
    ensures Slot(b, u, key).Some? ==> r == Body(b.tu + [u], b.tuhash[key(u.head) := Live(|b.tu|)])
    ensures Slot(b, u, key).None? ==> r.tuhash == b.tuhash
  {
    var k := key(u.head);
    if k !in b.tuhash then
      Body(b.tu + [u], b.tuhash[k := Live(|b.tu|)])
    else
      match b.tuhash[k]
      case Detached => b
      case Live(i) =>
        var merged := b.tu[i].(variants := AddVariants(b.tu[i].variants, u.variants));
        Body(b.tu[i := merged], b.tuhash)
  }

  /**
   * A unit whose key is registered changes only the unit registered under
   * that key, whose variants gain the new ones; a key whose unit has left
   * the list absorbs the unit without trace.
   */
  lemma InsertExisting(b: Body, u: Unit, key: KeyFn)
    requires WellFormed(b, key) && key(u.head) in b.tuhash
    ensures var r := Insert(b, u, key);
      && r.tuhash == b.tuhash && |r.tu| == |b.tu|
      && (b.tuhash[key(u.head)] == Detached ==> r == b)
      && (b.tuhash[key(u.head)].Live? ==>
            var i := b.tuhash[key(u.head)].index;
            && r.tu[i].head == b.tu[i].head
            && r.tu[i].variants == AddVariants(b.tu[i].variants, u.variants)
            && forall j :: 0 <= j < |b.tu| && j != i ==> r.tu[j] == b.tu[j])
  {
  }

  /** After merging a unit in, its key is registered and its variants are held there. */
  predicate Covers(b: Body, u: Unit, key: KeyFn)
    requires WellFormed(b, key)
  {
    var k := key(u.head);
    && k in b.tuhash
    && (b.tuhash[k].Live? ==> forall v :: v in u.variants ==> v in b.tu[b.tuhash[k].index].variants)
  }

  lemma InsertCovers(b: Body, u: Unit, key: KeyFn)
    requires WellFormed(b, key)
    ensures Covers(Insert(b, u, key), u, key)
  {
  }

  lemma CoversGrows(b1: Body, b2: Body, u: Unit, key: KeyFn)
    requires WellFormed(b1, key) && WellFormed(b2, key)
    requires Grows(b1, b2) && Covers(b1, u, key)
    ensures Covers(b2, u, key)
  {
  }

  /** Merging in a unit whose content is already held changes nothing. */
  lemma InsertCoveredNoop(b: Body, u: Unit, key: KeyFn)
    requires WellFormed(b, key) && Covers(b, u, key)
    ensures Insert(b, u, key) == b
    ensures Slot(b, u, key) == None
  {
    var k := key(u.head);
    if b.tuhash[k].Live? {
      var i := b.tuhash[k].index;
      AddVariantsNoop(b.tu[i].variants, u.variants);
      assert b.tu[i := b.tu[i]] == b.tu;
    }
  }

  /** addTranslationUnits on values: each unit merged in, in order. */
  function InsertAll(b: Body, us: seq<Unit>, key: KeyFn): (r: Body)
    requires WellFormed(b, key)
    ensures WellFormed(r, key) && Grows(b, r)
    ensures Indexed(b, key) ==> Indexed(r, key)
    ensures |r.tu| <= |b.tu| + |us|
    decreases |us|
  {
    if us == [] then b
    else
      var r0 := InsertAll(b, us[..|us| - 1], key);
      GrowsTrans(b, r0, Insert(r0, us[|us| - 1], key));
      Insert(r0, us[|us| - 1], key)
  }

  /** In an indexed list no two units share a key: the list is deduplicated. */
  lemma IndexedKeysDistinct(b: Body, key: KeyFn, i: nat, j: nat)
    requires Indexed(b, key)
    requires i < j < |b.tu|
    ensures key(b.tu[i].head) != key(b.tu[j].head)
  {
  }

  /**
   * Feeding the same units in twice is the same as once: after the first
   * pass every unit is covered, and merging in covered units is a no-op.
   */
  lemma {:induction false} InsertAllCovers(b: Body, us: seq<Unit>, key: KeyFn)
    requires WellFormed(b, key)
    ensures forall u :: u in us ==> Covers(InsertAll(b, us, key), u, key)
    decreases |us|
  {
    if us != [] {
      var init := us[..|us| - 1];
      var last := us[|us| - 1];
      var r0 := InsertAll(b, init, key);
      var r := Insert(r0, last, key);
      InsertAllCovers(b, init, key);
      InsertCovers(r0, last, key);
      forall u | u in us ensures Covers(r, u, key) {
        if u != last {
          assert u in init by {
            var j :| 0 <= j < |us| && us[j] == u;
            assert j < |us| - 1 && init[j] == u;
          }
          CoversGrows(r0, r, u, key);
        }
      }
    }
  }

  lemma {:induction false} InsertAllCoveredNoop(b: Body, us: seq<Unit>, key: KeyFn)
    requires WellFormed(b, key)
    requires forall u :: u in us ==> Covers(b, u, key)
    ensures InsertAll(b, us, key) == b
    decreases |us|
  {
    if us != [] {
      var init := us[..|us| - 1];
      forall u | u in init ensures Covers(b, u, key) { assert u in us; }
      InsertAllCoveredNoop(b, init, key);
      assert us[|us| - 1] in us;
      InsertCoveredNoop(b, us[|us| - 1], key);
    }
  }

  /** addTranslationUnits is idempotent: the second call with the same units changes nothing. */
  lemma InsertAllIdempotent(b: Body, us: seq<Unit>, key: KeyFn)
    requires WellFormed(b, key)
    ensures InsertAll(InsertAll(b, us, key), us, key) == InsertAll(b, us, key)
  {
    InsertAllCovers(b, us, key);
    InsertAllCoveredNoop(InsertAll(b, us, key), us, key);
  }

  /** The index once the list is replaced: every key is kept, and none reaches a unit in the list. */
  function Detach(m: map<string, Entry>): (r: map<string, Entry>)
    ensures r.Keys == m.Keys
    ensures forall k :: k in r ==> r[k] == Detached
  {
    map k | k in m :: Detached
  }

  /** Units pushed without registering them leave every index entry valid. */
  lemma AppendUnindexed(b: Body, us: seq<Unit>, key: KeyFn)
    requires WellFormed(b, key)
    ensures WellFormed(Body(b.tu + us, b.tuhash), key)
  {
    var r := Body(b.tu + us, b.tuhash);
    forall k | k in r.tuhash && r.tuhash[k].Live?
      ensures r.tuhash[k].index < |r.tu| && key(r.tu[r.tuhash[k].index].head) == k
    {
      assert r.tu[b.tuhash[k].index] == b.tu[b.tuhash[k].index];
    }
  }

  /** Once the index is detached, the list and the index agree only if the list is empty. */
  lemma DetachedIndexed(tu: seq<Unit>, m: map<string, Entry>, key: KeyFn)
    ensures Indexed(Body(tu, Detach(m)), key) <==> tu == []
  {
    if tu != [] {
      var k := key(tu[0].head);
      if k in Detach(m) {
        assert Detach(m)[k] == Detached;
      }
    }
  }
}
