/** Properties of ingestion: idempotence, ordering and the plural folding rules. */
module IngestLemmas {
  import opened Wrappers
  import opened Units
  import opened Helpers
  import opened Store
  import opened Ingest

  // ------------------------------------------------------------ idempotence

  lemma {:induction false} FeedCovers(b: Body, items: seq<Item>, key: KeyFn)
    requires WellFormed(b, key)
    ensures forall it :: it in items ==> Covers(Feed(b, items, key).body, it.unit, key)
    decreases |items|
  {
    if items != [] {
      var n := |items| - 1;
      var r0 := Feed(b, items[..n], key);
      var r := Feed(b, items, key);
      FeedCovers(b, items[..n], key);
      InsertCovers(r0.body, items[n].unit, key);
      forall it | it in items ensures Covers(r.body, it.unit, key) {
        if it != items[n] {
          InFront(items, it);
          CoversGrows(r0.body, r.body, it.unit, key);
        }
      }
    }
  }

  /** An element other than the last is in the sequence's front. */
  lemma InFront<T>(s: seq<T>, x: T)
    requires x in s && x != s[|s| - 1]
    ensures x in s[..|s| - 1]
  {
    var j :| 0 <= j < |s| && s[j] == x;
    assert s[..|s| - 1][j] == x;
  }

  lemma {:induction false} FeedCoveredNoop(b: Body, items: seq<Item>, key: KeyFn)
    requires WellFormed(b, key)
    requires forall it :: it in items ==> Covers(b, it.unit, key)
    ensures Feed(b, items, key).body == b
    ensures forall s :: s in Feed(b, items, key).other ==> s == None
    decreases |items|
  {
    if items != [] {
      var n := |items| - 1;
      forall it | it in items[..n] ensures Covers(b, it.unit, key) { assert it in items; }
      FeedCoveredNoop(b, items[..n], key);
      assert items[n] in items;
      InsertCoveredNoop(b, items[n].unit, key);
    }
  }

  lemma {:induction false} AttachCategoryNoSlots(b: Body, other: seq<Option<nat>>, segs: seq<string>, locale: string, key: KeyFn)
    requires WellFormed(b, key) && SlotsIn(other, |b.tu|)
    requires forall s :: s in other ==> s == None
    ensures AttachCategory(b, other, segs, locale, key) == b
    decreases |segs|
  {
    if segs != [] {
      var n := |segs| - 1;
      AttachCategoryNoSlots(b, other, segs[..n], locale, key);
      if n < |other| {
        assert other[n] in other;
      }
    }
  }

  lemma {:induction false} AttachExtrasNoSlots(b: Body, other: seq<Option<nat>>, extras: seq<seq<string>>, locale: string, key: KeyFn)
    requires WellFormed(b, key) && SlotsIn(other, |b.tu|)
    requires forall s :: s in other ==> s == None
    ensures AttachExtras(b, other, extras, locale, key) == b
    decreases |extras|
  {
    if extras != [] {
      var n := |extras| - 1;
      AttachExtrasNoSlots(b, other, extras[..n], locale, key);
      AttachCategoryNoSlots(b, other, extras[n], locale, key);
    }
  }

  /**
   * Adding the same resource a second time changes nothing: not the
   * number of units, not any unit's variants, not the index; this holds
   * also when the first addition threw part way.
   */
  lemma IngestIdempotent(b: Body, res: Option<Resource>, env: Env)
    requires WellFormed(b, env.key)
    ensures IngestResource(IngestResource(b, res, env), res, env) == IngestResource(b, res, env)
  {
    if Accepts(res, env.docLocale) && !(res.value.ArrayResource? && Throws(res, env)) {
      var b1 := IngestResource(b, res, env);
      var items := ResourceItems(res.value, env);
      var run := Feed(b, items, env.key);
      FeedCovers(b, items, env.key);
      forall it | it in items ensures Covers(b1, it.unit, env.key) {
        CoversGrows(run.body, b1, it.unit, env.key);
      }
      FeedCoveredNoop(b1, items, env.key);
      var run1 := Feed(b1, items, env.key);
      match res.value
      case PluralResource(info, sp, tp) =>
        var tarP := TargetPlurals(info, tp, env);
        if tarP.Some? {
          var srcP := SegmentPlurals(sp, env.docLocale, env);
          AttachExtrasNoSlots(b1, run1.other, ExtraSegments(srcP, tarP.value), TargetLocale(info), env.key);
        }
      case _ =>
    }
  }

  /** Re-adding a resource leaves the unit count and every unit's variant count unchanged. */
  lemma ReAddKeepsCounts(b: Body, res: Option<Resource>, env: Env)
    requires WellFormed(b, env.key)
    ensures var b1 := IngestResource(b, res, env);
      var b2 := IngestResource(b1, res, env);
      |b2.tu| == |b1.tu| && forall i :: 0 <= i < |b1.tu| ==> |b2.tu[i].variants| == |b1.tu[i].variants|
  {
    IngestIdempotent(b, res, env);
  }

  // -------------------------------------------------------------- ordering

  /** Items whose source segments are, in order, exactly `segs`. */
  predicate SourcesAre(items: seq<Item>, segs: seq<string>) {
    |items| == |segs| && forall k :: 0 <= k < |items| ==> items[k].unit.head.source == Some(segs[k])
  }

  lemma SourcesAppend(a: seq<Item>, sa: seq<string>, c: seq<Item>, sc: seq<string>)
    requires SourcesAre(a, sa) && SourcesAre(c, sc)
    ensures SourcesAre(a + c, sa + sc)
  {
    forall k | 0 <= k < |a + c| ensures (a + c)[k].unit.head.source == Some((sa + sc)[k]) {
      if k >= |a| {
        assert (a + c)[k] == c[k - |a|] && (sa + sc)[k] == sc[k - |a|];
      }
    }
  }

  lemma ArrayGroupSources(info: ResInfo, sa: seq<Option<string>>, ta: Option<seq<Option<string>>>, env: Env, i: nat)
    requires i < |sa|
    ensures SourcesAre(ArrayGroups(info, sa, ta, env)[i], SegmentAll(sa, env.docLocale, env)[i])
  {
    var segs := SegmentAll(sa, env.docLocale, env)[i];
    var items := ElementItems(info, env, segs, ElementTarget(info, ta, env, i));
    assert ArrayGroups(info, sa, ta, env)[i] == items;
  }

  /** Groups that line up with segment lists flatten to items that line up with their concatenation. */
  lemma {:induction false} FlattenSources(gs: seq<seq<Item>>, ss: seq<seq<string>>)
    requires |gs| == |ss| && forall i :: 0 <= i < |gs| ==> SourcesAre(gs[i], ss[i])
    ensures SourcesAre(Flatten(gs), Flatten(ss))
    decreases |gs|
  {
    if gs != [] {
      var n := |gs| - 1;
      FlattenSources(gs[..n], ss[..n]);
      SourcesAppend(Flatten(gs[..n]), Flatten(ss[..n]), gs[n], ss[n]);
    }
  }

  /**
   * Array units come element-major: all segments of element 0 in order,
   * then those of element 1, and so on.
   */
  lemma ArraySourceOrder(info: ResInfo, sa: seq<Option<string>>, ta: Option<seq<Option<string>>>, env: Env)
    ensures SourcesAre(ResourceItems(ArrayResource(info, sa, ta), env), Flatten(SegmentAll(sa, env.docLocale, env)))
  {
    forall i | 0 <= i < |sa|
      ensures SourcesAre(ArrayGroups(info, sa, ta, env)[i], SegmentAll(sa, env.docLocale, env)[i])
    {
      ArrayGroupSources(info, sa, ta, env, i);
    }
    FlattenSources(ArrayGroups(info, sa, ta, env), SegmentAll(sa, env.docLocale, env));
  }

  // -------------------------------------------------------------- alignment

  /**
   * Source segment i of a string pairs with target segment i, when
   * targets apply and that target segment exists and is non-empty.
   */
  lemma StringAlignment(info: ResInfo, source: Option<string>, target: Option<string>, env: Env, i: nat)
    requires AddTarget(info, env.docLocale) && Truthy(target)
    requires i < |SegmentString(source, env.docLocale, env.segtype, env.split)|
    ensures var segs := SegmentString(source, env.docLocale, env.segtype, env.split);
      var tsegs := SegmentString(target, TargetLocale(info), env.segtype, env.split);
      StringItems(info, source, target, env)[i].unit.variants
        == [Variant(env.docLocale, Some(segs[i]))]
           + (if i < |tsegs| && tsegs[i] != "" then [Variant(TargetLocale(info), Some(tsegs[i]))] else [])
  {
    var segs := SegmentString(source, env.docLocale, env.segtype, env.split);
    var t := StringTarget(info, target, env, i);
    assert StringItems(info, source, target, env)[i] == Item(NewUnit(info, env.docLocale, segs[i], t), false);
  }

  /**
   * Segment j of array element i pairs with segment j of target element
   * i, when targets apply and both exist; an empty target segment is
   * kept, unlike for strings.
   */
  lemma ArrayAlignment(info: ResInfo, sa: seq<Option<string>>, ta: seq<Option<string>>, env: Env, i: nat, j: nat)
    requires AddTarget(info, env.docLocale)
    requires i < |sa| && j < |SegmentString(sa[i], env.docLocale, env.segtype, env.split)|
    ensures var segs := SegmentString(sa[i], env.docLocale, env.segtype, env.split);
      var tsegs := if i < |ta| then SegmentString(ta[i], TargetLocale(info), env.segtype, env.split) else [];
      && j < |ArrayGroups(info, sa, Some(ta), env)[i]|
      && ArrayGroups(info, sa, Some(ta), env)[i][j].unit.variants
           == [Variant(env.docLocale, Some(segs[j]))] + (if j < |tsegs| then [Variant(TargetLocale(info), Some(tsegs[j]))] else [])
  {
    var segs := SegmentString(sa[i], env.docLocale, env.segtype, env.split);
    var tsegs := ElementTarget(info, Some(ta), env, i);
    var items := ElementItems(info, env, segs, tsegs);
    assert ArrayGroups(info, sa, Some(ta), env)[i] == items;
    assert j < |items|;
  }

  // -------------------------------------------------------- plural folding

  /** No two "other" units landed at the same position. */
  predicate DistinctSlots(other: seq<Option<nat>>) {
    forall i, j :: 0 <= i < j < |other| && other[i].Some? ==> other[i] != other[j]
  }

  /**
   * Where the "other" units land: the i-th one pushed, when appended, sits
   * past the units held before, under its own head and with at least its
   * own variants; no two share a position.
   */
  lemma {:induction false} FeedSlots(b: Body, items: seq<Item>, key: KeyFn)
    requires WellFormed(b, key)
    ensures var run := Feed(b, items, key);
      var others := OtherUnits(items);
      && |run.other| == |others|
      && DistinctSlots(run.other)
      && forall i :: 0 <= i < |run.other| && run.other[i].Some? ==>
           var k := run.other[i].value;
           && |b.tu| <= k < |run.body.tu|
           && run.body.tu[k].head == others[i].head
           && forall v :: v in others[i].variants ==> v in run.body.tu[k].variants
    decreases |items|
  {
    if items != [] {
      var n := |items| - 1;
      var it := items[n];
      var r0 := Feed(b, items[..n], key);
      var run := Feed(b, items, key);
      FeedSlots(b, items[..n], key);
      FeedGrows(b, items[..n], key);
      assert run.body == Insert(r0.body, it.unit, key);
      if it.isOther {
        var o0 := OtherUnits(items[..n]);
        assert OtherUnits(items) == o0 + [it.unit];
        assert run.other == r0.other + [Slot(r0.body, it.unit, key)];
        forall i | 0 <= i < |r0.other| && r0.other[i].Some?
          ensures r0.other[i].value < |r0.body.tu|
        {
          assert r0.other[i] in r0.other;
        }
      }
    }
  }

  /**
   * The variants the extras loop adds to the i-th "other" unit: segment i
   * of each extra category, in target key order, up to the category that
   * runs past the end of `other`.
   */
  function Column(extras: seq<seq<string>>, i: nat, bound: nat, locale: string): seq<Variant>
    decreases |extras|
  {
    if extras == [] then []
    else
      var n := |extras| - 1;
      Column(extras[..n], i, bound, locale)
        + (if !Overflows(extras[..n], bound) && i < |extras[n]| then [Variant(locale, Some(extras[n][i]))] else [])
  }

  /** One extra category: the i-th "other" unit, if appended, gains segment i. */
  lemma {:induction false} AttachCategoryAt(b: Body, other: seq<Option<nat>>, segs: seq<string>, locale: string,
                                            key: KeyFn, i: nat)
    requires WellFormed(b, key) && SlotsIn(other, |b.tu|) && DistinctSlots(other)
    requires i < |other| && other[i].Some?
    ensures other[i].value < |b.tu|
    ensures var k := other[i].value;
      AttachCategory(b, other, segs, locale, key).tu[k] == b.tu[k].(variants :=
        if i < |segs| then AddVariant(b.tu[k].variants, Variant(locale, Some(segs[i]))) else b.tu[k].variants)
    decreases |segs|
  {
    assert other[i] in other;
    if segs != [] {
      var n := |segs| - 1;
      AttachCategoryAt(b, other, segs[..n], locale, key, i);
      if n < |other| {
        assert other[n] in other;
        if i != n {
          assert other[n] != other[i];
        }
      }
    }
  }

  /** One extra category changes no unit outside the `other` list. */
  lemma {:induction false} AttachCategoryElse(b: Body, other: seq<Option<nat>>, segs: seq<string>, locale: string,
                                              key: KeyFn, k: nat)
    requires WellFormed(b, key) && SlotsIn(other, |b.tu|)
    requires k < |b.tu| && Some(k) !in other
    ensures AttachCategory(b, other, segs, locale, key).tu[k] == b.tu[k]
    decreases |segs|
  {
    if segs != [] {
      var n := |segs| - 1;
      AttachCategoryElse(b, other, segs[..n], locale, key, k);
      if n < |other| {
        assert other[n] in other;
      }
    }
  }

  /** All extra categories: the i-th "other" unit, if appended, gains the column of segments i. */
  lemma {:induction false} AttachExtrasAt(b: Body, other: seq<Option<nat>>, extras: seq<seq<string>>,
                                          locale: string, key: KeyFn, i: nat)
    requires WellFormed(b, key) && SlotsIn(other, |b.tu|) && DistinctSlots(other)
    requires i < |other| && other[i].Some?
    ensures other[i].value < |b.tu|
    ensures var k := other[i].value;
      AttachExtras(b, other, extras, locale, key).tu[k] ==
        b.tu[k].(variants := AddVariants(b.tu[k].variants, Column(extras, i, |other|, locale)))
    decreases |extras|
  {
    assert other[i] in other;
    var k := other[i].value;
    if extras != [] {
      var n := |extras| - 1;
      var r0 := AttachExtras(b, other, extras[..n], locale, key);
      AttachExtrasAt(b, other, extras[..n], locale, key, i);
      var c0 := Column(extras[..n], i, |other|, locale);
      if !Overflows(extras[..n], |other|) {
        AttachCategoryAt(r0, other, extras[n], locale, key, i);
        if i < |extras[n]| {
          var v := Variant(locale, Some(extras[n][i]));
          assert Column(extras, i, |other|, locale) == c0 + [v];
          AddVariantsSnoc(b.tu[k].variants, c0, v);
        } else {
          assert Column(extras, i, |other|, locale) == c0;
        }
      } else {
        assert Column(extras, i, |other|, locale) == c0;
      }
    }
  }

  /** All extra categories change no unit outside the `other` list. */
  lemma {:induction false} AttachExtrasElse(b: Body, other: seq<Option<nat>>, extras: seq<seq<string>>,
                                            locale: string, key: KeyFn, k: nat)
    requires WellFormed(b, key) && SlotsIn(other, |b.tu|)
    requires k < |b.tu| && Some(k) !in other
    ensures AttachExtras(b, other, extras, locale, key).tu[k] == b.tu[k]
    decreases |extras|
  {
    if extras != [] {
      var n := |extras| - 1;
      var r0 := AttachExtras(b, other, extras[..n], locale, key);
      AttachExtrasElse(b, other, extras[..n], locale, key, k);
      if !Overflows(extras[..n], |other|) {
        AttachCategoryElse(r0, other, extras[n], locale, key, k);
      }
    }
  }

  /**
   * addResource of a plural resource: after its units are fed in, the
   * "other" unit pushed i-th, when it was appended, gains segment i of
   * each target category the source lacks, in target key order (up to the
   * category whose segments run past the end of `other`, where it
   * throws); no other unit and no index entry changes after feeding.
   */
  lemma PluralFolding(b: Body, info: ResInfo, sp: Plurals, tp: Option<Plurals>, env: Env)
    requires WellFormed(b, env.key) && info.sourceLocale == Some(env.docLocale)
    ensures var items := Flatten(PluralGroups(info, sp, tp, env));
      var run := Feed(b, items, env.key);
      var others := OtherUnits(items);
      var srcP := SegmentPlurals(sp, env.docLocale, env);
      var tarP := TargetPlurals(info, tp, env);
      var extras := if tarP.Some? then ExtraSegments(srcP, tarP.value) else [];
      var r := IngestResource(b, Some(PluralResource(info, sp, tp)), env);
      && |run.other| == |others| == OtherLength(srcP)
      && |r.tu| == |run.body.tu| && r.tuhash == run.body.tuhash
      && (forall i :: 0 <= i < |run.other| && run.other[i].Some? ==>
            var k := run.other[i].value;
            && |b.tu| <= k < |r.tu|
            && r.tu[k].head == others[i].head
            && r.tu[k].variants == AddVariants(run.body.tu[k].variants, Column(extras, i, |others|, TargetLocale(info))))
      && (forall k :: 0 <= k < |r.tu| && Some(k) !in run.other ==> r.tu[k] == run.body.tu[k])
  {
    var items := Flatten(PluralGroups(info, sp, tp, env));
    var run := Feed(b, items, env.key);
    var tarP := TargetPlurals(info, tp, env);
    var extras := if tarP.Some? then ExtraSegments(SegmentPlurals(sp, env.docLocale, env), tarP.value) else [];
    assert IngestResource(b, Some(PluralResource(info, sp, tp)), env)
        == AttachExtras(run.body, run.other, extras, TargetLocale(info), env.key);
    PluralOtherCount(info, sp, tp, env);
    FeedThenAttach(b, items, extras, TargetLocale(info), env.key);
  }

  /** Feeding items in and then attaching extra categories to the "other" units they pushed. */
  lemma FeedThenAttach(b: Body, items: seq<Item>, extras: seq<seq<string>>, locale: string, key: KeyFn)
    requires WellFormed(b, key)
    ensures var run := Feed(b, items, key);
      var others := OtherUnits(items);
      var r := AttachExtras(run.body, run.other, extras, locale, key);
      && |run.other| == |others|
      && |r.tu| == |run.body.tu| && r.tuhash == run.body.tuhash
      && (forall i :: 0 <= i < |run.other| && run.other[i].Some? ==>
            var k := run.other[i].value;
            && |b.tu| <= k < |r.tu|
            && r.tu[k].head == others[i].head
            && r.tu[k].variants == AddVariants(run.body.tu[k].variants, Column(extras, i, |others|, locale)))
      && (forall k :: 0 <= k < |r.tu| && Some(k) !in run.other ==> r.tu[k] == run.body.tu[k])
  {
    var run := Feed(b, items, key);
    var r := AttachExtras(run.body, run.other, extras, locale, key);
    FeedSlots(b, items, key);
    forall i | 0 <= i < |run.other| && run.other[i].Some?
      ensures r.tu[run.other[i].value] == run.body.tu[run.other[i].value].(variants :=
        AddVariants(run.body.tu[run.other[i].value].variants, Column(extras, i, |run.other|, locale)))
    {
      AttachExtrasAt(run.body, run.other, extras, locale, key, i);
    }
    forall k | 0 <= k < |r.tu| && Some(k) !in run.other
      ensures r.tu[k] == run.body.tu[k]
    {
      AttachExtrasElse(run.body, run.other, extras, locale, key, k);
    }
  }

  lemma {:induction false} OtherUnitsAppend(a: seq<Item>, c: seq<Item>)
    ensures OtherUnits(a + c) == OtherUnits(a) + OtherUnits(c)
    decreases |c|
  {
    if c == [] {
      assert a + c == a;
    } else {
      var n := |c| - 1;
      assert (a + c)[..|a + c| - 1] == a + c[..n];
      assert (a + c)[|a + c| - 1] == c[n];
      OtherUnitsAppend(a, c[..n]);
    }
  }

  lemma {:induction false} OtherUnitsUniform(items: seq<Item>, flag: bool)
    requires forall it :: it in items ==> it.isOther == flag
    ensures OtherUnits(items) == if flag then UnitsOf(items) else []
    decreases |items|
  {
    if items != [] {
      var n := |items| - 1;
      assert forall it :: it in items[..n] ==> it in items;
      OtherUnitsUniform(items[..n], flag);
      assert items[n] in items;
      assert UnitsOf(items) == UnitsOf(items[..n]) + [items[n].unit];
    }
  }

  /** With distinct category names, the "other" units are exactly the units of the "other" group. */
  lemma {:induction false} OtherUnitsGroups(srcP: seq<(string, seq<string>)>, gs: seq<seq<Item>>)
    requires UniqueKeys(srcP) && |gs| == |srcP|
    requires forall g :: 0 <= g < |gs| ==> forall it :: it in gs[g] ==> it.isOther == (srcP[g].0 == "other")
    ensures Get(srcP, "other").None? ==> OtherUnits(Flatten(gs)) == []
    ensures forall g :: 0 <= g < |gs| && srcP[g].0 == "other" ==> OtherUnits(Flatten(gs)) == UnitsOf(gs[g])
    decreases |gs|
  {
    if gs != [] {
      var n := |gs| - 1;
      var all := OtherUnits(Flatten(gs));
      var init := OtherUnits(Flatten(gs[..n]));
      assert UniqueKeys(srcP[..n]);
      OtherUnitsGroups(srcP[..n], gs[..n]);
      OtherUnitsAppend(Flatten(gs[..n]), gs[n]);
      OtherUnitsUniform(gs[n], srcP[n].0 == "other");
      GetLast(srcP, "other");
      if srcP[n].0 == "other" {
        assert forall g :: 0 <= g < n ==> srcP[..n][g].0 != "other";
        GetKeys(srcP[..n], "other");
        assert init == [];
        assert all == UnitsOf(gs[n]);
        assert Get(srcP, "other").Some?;
        assert forall g :: 0 <= g < n ==> srcP[g].0 != "other";
      } else {
        assert all == init;
        assert Get(srcP, "other") == Get(srcP[..n], "other");
        forall g | 0 <= g < n && srcP[g].0 == "other"
          ensures all == UnitsOf(gs[g])
        {
          assert srcP[..n][g] == srcP[g] && gs[..n][g] == gs[g];
        }
      }
    }
  }

  /**
   * The `other` list of a plural resource: its i-th unit is the unit built
   * for segment i of the source "other" category, and it is empty when the
   * source has no such category.
   */
  lemma PluralOthers(info: ResInfo, sp: Plurals, tp: Option<Plurals>, env: Env)
    ensures var srcP := SegmentPlurals(sp, env.docLocale, env);
      var others := OtherUnits(Flatten(PluralGroups(info, sp, tp, env)));
      && (Get(srcP, "other").None? ==> others == [])
      && forall g :: 0 <= g < |srcP| && srcP[g].0 == "other" ==>
           others == UnitsOf(CategoryItems(info, env, "other", srcP[g].1, CategoryTarget(TargetPlurals(info, tp, env), "other")))
  {
    var srcP := SegmentPlurals(sp, env.docLocale, env);
    OtherUnitsGroups(srcP, PluralGroups(info, sp, tp, env));
  }

  // ------------------------------------------------------ plural scenarios

  const En := "en-US"

  /** Resource information with no context, flavor, project or datatype. */
  function PlainInfo(tl: string): ResInfo {
    ResInfo(Some(En), Some(tl), None, None, None, None)
  }

  function PlainHead(source: string): Head {
    Head(Some(En), Some(source), None, [], None)
  }

  function Paragraphs(key: KeyFn): Env {
    Env(En, "paragraph", (s, l) => [s], key)
  }

  lemma PlainProps(tl: string)
    ensures UnitProps(PlainInfo(tl)) == []
  {
    AddPropertiesUnset([], [("x-context", None), ("x-flavor", None), ("x-project", None)]);
  }

  /** In paragraph mode every set plural string is one segment. */
  lemma ParagraphPlurals(p: Plurals, locale: string, key: KeyFn)
    requires forall i :: 0 <= i < |p| ==> Truthy(p[i].1)
    ensures forall i :: 0 <= i < |p| ==> SegmentPlurals(p, locale, Paragraphs(key))[i] == (p[i].0, [p[i].1.value])
  {
  }

  const EnPlural: Plurals := [("one", Some("one test")), ("other", Some("some tests"))]
  const JaPlural: Plurals := [("other", Some("ja tests"))]
  const RuPlural: Plurals := [("one", Some("ru one")), ("few", Some("ru few")), ("other", Some("ru other"))]
  const EnSegs: seq<(string, seq<string>)> := [("one", ["one test"]), ("other", ["some tests"])]
  const JaSegs: seq<(string, seq<string>)> := [("other", ["ja tests"])]
  const RuSegs: seq<(string, seq<string>)> := [("one", ["ru one"]), ("few", ["ru few"]), ("other", ["ru other"])]

  lemma PluralSegments(key: KeyFn)
    ensures SegmentPlurals(EnPlural, En, Paragraphs(key)) == EnSegs
    ensures SegmentPlurals(JaPlural, "ja-JP", Paragraphs(key)) == JaSegs
    ensures SegmentPlurals(RuPlural, "ru-RU", Paragraphs(key)) == RuSegs
  {
    ParagraphPlurals(EnPlural, En, key);
    ParagraphPlurals(JaPlural, "ja-JP", key);
    ParagraphPlurals(RuPlural, "ru-RU", key);
  }

  lemma PluralLookups()
    ensures Get(EnSegs, "one") == Some(["one test"]) && Get(EnSegs, "other") == Some(["some tests"])
    ensures Get(EnSegs, "few") == None
    ensures Get(JaSegs, "one") == None && Get(JaSegs, "other") == Some(["ja tests"])
    ensures Get(RuSegs, "one") == Some(["ru one"]) && Get(RuSegs, "other") == Some(["ru other"])
  {
    GetAt(EnSegs, 0);
    GetAt(EnSegs, 1);
    assert Keys(EnSegs) == ["one", "other"];
    assert Keys(JaSegs) == ["other"];
    GetAt(RuSegs, 0);
    GetAt(RuSegs, 2);
  }

  lemma PluralExtras()
    ensures ExtraSegments(EnSegs, JaSegs) == []
    ensures ExtraSegments(EnSegs, RuSegs) == [["ru few"]]
    ensures OtherLength(EnSegs) == 1
  {
    PluralLookups();
    assert JaSegs[..0] == [];
    assert RuSegs[..2][..1] == [("one", ["ru one"])];
    assert RuSegs[..2] == [("one", ["ru one"]), ("few", ["ru few"])];
    assert ExtraSegments(EnSegs, RuSegs[..1]) == [] by { assert RuSegs[..1][..0] == []; }
    assert ExtraSegments(EnSegs, RuSegs[..2]) == [["ru few"]];
  }

  /**
   * A source with no "other" category leaves the `other` list empty, so a
   * target category the source lacks has nowhere to go: addResource throws,
   * after adding the units of the source categories.
   */
  lemma PluralWithoutOtherThrows(key: KeyFn)
    ensures PluralThrows(PlainInfo("ru-RU"), [("one", Some("one test"))], Some(RuPlural), Paragraphs(key))
  {
    var sp: Plurals := [("one", Some("one test"))];
    var srcP := SegmentPlurals(sp, En, Paragraphs(key));
    ParagraphPlurals(sp, En, key);
    PluralSegments(key);
    assert srcP == [("one", ["one test"])];
    assert Keys(srcP) == ["one"];
    GetKeys(srcP, "other");
    assert OtherLength(srcP) == 0;
    assert RuSegs[1].0 !in Keys(srcP);
    assert ["ru few"] in ExtraSegments(srcP, RuSegs);
  }

  /** An array resource with a target locale but no target array throws at its first segment. */
  lemma ArrayWithoutTargetThrows(key: KeyFn)
    ensures ArrayThrows(PlainInfo("de-DE"), [None, Some("a string")], None, Paragraphs(key))
    ensures !ArrayThrows(PlainInfo("de-DE"), [None, Some("")], None, Paragraphs(key))
  {
    var env := Paragraphs(key);
    var sa: seq<Option<string>> := [None, Some("a string")];
    assert SegmentString(sa[1], env.docLocale, env.segtype, env.split) == ["a string"];
  }

  /** The unit produced for segment `source` with an optional target. */
  function PlainUnit(source: string, target: seq<Variant>): Unit {
    Unit(PlainHead(source), [Variant(En, Some(source))] + target)
  }

  lemma PluralGroupsOf(key: KeyFn, tl: string, tp: Plurals, tarP: seq<(string, seq<string>)>)
    requires tl != En && tl != ""
    requires SegmentPlurals(tp, tl, Paragraphs(key)) == tarP
    ensures PluralGroups(PlainInfo(tl), EnPlural, Some(tp), Paragraphs(key))
      == [CategoryItems(PlainInfo(tl), Paragraphs(key), "one", ["one test"], Get(tarP, "one")),
          CategoryItems(PlainInfo(tl), Paragraphs(key), "other", ["some tests"], Get(tarP, "other"))]
  {
    PluralSegments(key);
  }

  lemma JapaneseReturns(key: KeyFn)
    ensures !PluralThrows(PlainInfo("ja-JP"), EnPlural, Some(JaPlural), Paragraphs(key))
    ensures TargetPlurals(PlainInfo("ja-JP"), Some(JaPlural), Paragraphs(key)) == Some(JaSegs)
  {
    PluralSegments(key);
    PluralLookups();
    PluralExtras();
  }

  lemma RussianReturns(key: KeyFn)
    ensures !PluralThrows(PlainInfo("ru-RU"), EnPlural, Some(RuPlural), Paragraphs(key))
    ensures TargetPlurals(PlainInfo("ru-RU"), Some(RuPlural), Paragraphs(key)) == Some(RuSegs)
  {
    PluralSegments(key);
    PluralLookups();
    PluralExtras();
  }

  /** A category with a single segment makes a single unit. */
  lemma SingleSegmentItems(tl: string, key: KeyFn, category: string, seg: string, t: Option<string>)
    requires tl != En
    ensures var tsegs := if t.Some? then Some([t.value]) else None;
      CategoryItems(PlainInfo(tl), Paragraphs(key), category, [seg], tsegs)
        == [Item(PlainUnit(seg, if t.Some? then [Variant(tl, Some(t.value))] else []), category == "other")]
  {
    PlainProps(tl);
    var tsegs := if t.Some? then Some([t.value]) else None;
    var items := CategoryItems(PlainInfo(tl), Paragraphs(key), category, [seg], tsegs);
    var target := if t.Some? then Some(Variant(tl, TargetAt([t.value], 0))) else None;
    var u := NewUnit(PlainInfo(tl), En, seg, target);
    assert items[0] == Item(u, category == "other");
    assert u == PlainUnit(seg, if t.Some? then [Variant(tl, Some(t.value))] else []);
  }

  lemma JapaneseShape(key: KeyFn)
    ensures PluralGroups(PlainInfo("ja-JP"), EnPlural, Some(JaPlural), Paragraphs(key))
           == [[Item(PlainUnit("one test", []), false)],
               [Item(PlainUnit("some tests", [Variant("ja-JP", Some("ja tests"))]), true)]]
  {
    JapaneseReturns(key);
    PluralSegments(key);
    PluralLookups();
    PluralGroupsOf(key, "ja-JP", JaPlural, JaSegs);
    SingleSegmentItems("ja-JP", key, "one", "one test", None);
    SingleSegmentItems("ja-JP", key, "other", "some tests", Some("ja tests"));
  }

  lemma RussianShape(key: KeyFn)
    ensures PluralGroups(PlainInfo("ru-RU"), EnPlural, Some(RuPlural), Paragraphs(key))
           == [[Item(PlainUnit("one test", [Variant("ru-RU", Some("ru one"))]), false)],
               [Item(PlainUnit("some tests", [Variant("ru-RU", Some("ru other"))]), true)]]
  {
    RussianReturns(key);
    PluralSegments(key);
    PluralLookups();
    PluralGroupsOf(key, "ru-RU", RuPlural, RuSegs);
    SingleSegmentItems("ru-RU", key, "one", "one test", Some("ru one"));
    SingleSegmentItems("ru-RU", key, "other", "some tests", Some("ru other"));
  }

  /** Feeding two items with fresh, distinct keys appends both. */
  lemma FeedTwoFresh(b: Body, i0: Item, i1: Item, key: KeyFn)
    requires WellFormed(b, key)
    requires key(i0.unit.head) !in b.tuhash && key(i1.unit.head) !in b.tuhash
    requires key(i0.unit.head) != key(i1.unit.head)
    requires !i0.isOther && i1.isOther
    ensures Feed(b, [i0, i1], key).body.tu == b.tu + [i0.unit, i1.unit]
    ensures Feed(b, [i0, i1], key).other == [Some(|b.tu| + 1)]
  {
    assert [i0, i1][..1] == [i0];
    assert [i0][..0] == [];
    assert Feed(b, [], key) == Run(b, []);
    var r0 := Feed(b, [i0], key);
    assert r0 == Run(Insert(b, i0.unit, key), []);
    assert r0.body.tu == b.tu + [i0.unit];
    assert key(i1.unit.head) !in r0.body.tuhash;
  }

  /** addResource of an accepted plural resource, step by step. */
  lemma IngestPluralSteps(b: Body, info: ResInfo, sp: Plurals, tp: Plurals, env: Env, tarP: seq<(string, seq<string>)>)
    requires WellFormed(b, env.key) && info.sourceLocale == Some(env.docLocale)
    requires TargetPlurals(info, Some(tp), env) == Some(tarP)
    ensures var run := Feed(b, Flatten(PluralGroups(info, sp, Some(tp), env)), env.key);
      var extras := ExtraSegments(SegmentPlurals(sp, env.docLocale, env), tarP);
      && SlotsIn(run.other, |run.body.tu|)
      && IngestResource(b, Some(PluralResource(info, sp, Some(tp))), env)
           == AttachExtras(run.body, run.other, extras, TargetLocale(info), env.key)
  {
  }

  lemma TwoGroups(g0: seq<Item>, g1: seq<Item>)
    ensures Flatten([g0, g1]) == g0 + g1
  {
    assert [g0, g1][..1] == [g0];
    assert [g0][..0] == [];
    assert Flatten([g0]) == g0;
  }

  /**
   * Target with fewer categories (Japanese has only "other"): two units;
   * the "one" unit holds only its source, the "other" unit source and target.
   */
  lemma PluralFewerTargetCategories(key: KeyFn)
    requires key(PlainHead("one test")) != key(PlainHead("some tests"))
    ensures var env := Paragraphs(key);
      var res := PluralResource(PlainInfo("ja-JP"), EnPlural, Some(JaPlural));
      !Throws(Some(res), env) &&
      var r := IngestResource(Body([], map[]), Some(res), env);
      && |r.tu| == 2
      && r.tu[0].variants == [Variant(En, Some("one test"))]
      && r.tu[1].variants == [Variant(En, Some("some tests")), Variant("ja-JP", Some("ja tests"))]
  {
    var env := Paragraphs(key);
    var b0 := Body([], map[]);
    var i0 := Item(PlainUnit("one test", []), false);
    var i1 := Item(PlainUnit("some tests", [Variant("ja-JP", Some("ja tests"))]), true);
    JapaneseItems(key);
    JapaneseReturns(key);
    IngestPluralSteps(b0, PlainInfo("ja-JP"), EnPlural, JaPlural, env, JaSegs);
    FeedTwoFresh(b0, i0, i1, key);
    PluralSegments(key);
    PluralExtras();
  }

  lemma JapaneseItems(key: KeyFn)
    ensures Flatten(PluralGroups(PlainInfo("ja-JP"), EnPlural, Some(JaPlural), Paragraphs(key)))
      == [Item(PlainUnit("one test", []), false), Item(PlainUnit("some tests", [Variant("ja-JP", Some("ja tests"))]), true)]
  {
    JapaneseShape(key);
    TwoGroups([Item(PlainUnit("one test", []), false)], [Item(PlainUnit("some tests", [Variant("ja-JP", Some("ja tests"))]), true)]);
  }

  /**
   * Target with more categories (Russian adds "few"): the "few" segment
   * is added to the "other" unit, after the "other" target.
   */
  lemma PluralMoreTargetCategories(key: KeyFn)
    requires key(PlainHead("one test")) != key(PlainHead("some tests"))
    ensures var env := Paragraphs(key);
      var res := PluralResource(PlainInfo("ru-RU"), EnPlural, Some(RuPlural));
      !Throws(Some(res), env) &&
      var r := IngestResource(Body([], map[]), Some(res), env);
      && |r.tu| == 2
      && r.tu[0].variants == [Variant(En, Some("one test")), Variant("ru-RU", Some("ru one"))]
      && r.tu[1].variants == [Variant(En, Some("some tests")), Variant("ru-RU", Some("ru other")), Variant("ru-RU", Some("ru few"))]
  {
    RussianSteps(key, Body([], map[]));
    FeedTwoFresh(Body([], map[]), RuOneItem, RuOtherItem, key);
    var run := Feed(Body([], map[]), [RuOneItem, RuOtherItem], key);
    RussianAttach(run.body, run.other, key);
  }

  const RuOneItem := Item(PlainUnit("one test", [Variant("ru-RU", Some("ru one"))]), false)
  const RuOtherItem := Item(PlainUnit("some tests", [Variant("ru-RU", Some("ru other"))]), true)

  /** The "few" segment goes to the "other" unit that was appended at index 1. */
  lemma RussianAttach(b: Body, other: seq<Option<nat>>, key: KeyFn)
    requires WellFormed(b, key) && b.tu == [RuOneItem.unit, RuOtherItem.unit] && other == [Some(1)]
    ensures var r := AttachExtras(b, other, [["ru few"]], "ru-RU", key);
      && |r.tu| == 2
      && r.tu[0].variants == [Variant(En, Some("one test")), Variant("ru-RU", Some("ru one"))]
      && r.tu[1].variants == [Variant(En, Some("some tests")), Variant("ru-RU", Some("ru other")), Variant("ru-RU", Some("ru few"))]
  {
    var v := Variant("ru-RU", Some("ru few"));
    assert v !in RuOtherItem.unit.variants;
    AttachFresh(b, 1, v, key);
    AttachOne(b, other, "ru few", "ru-RU", key);
  }

  /** other[k].addVariant(v) for a variant the unit does not hold yet. */
  lemma AttachFresh(b: Body, k: nat, v: Variant, key: KeyFn)
    requires WellFormed(b, key) && k < |b.tu| && v !in b.tu[k].variants
    ensures AttachAt(b, Some(k), v, key).tu == b.tu[k := b.tu[k].(variants := b.tu[k].variants + [v])]
  {
  }

  /** The Russian resource, up to the point where the extra "few" segment is attached. */
  lemma RussianSteps(key: KeyFn, b: Body)
    requires WellFormed(b, key)
    ensures var env := Paragraphs(key);
      var res := PluralResource(PlainInfo("ru-RU"), EnPlural, Some(RuPlural));
      var run := Feed(b, [RuOneItem, RuOtherItem], key);
      && !Throws(Some(res), env)
      && SlotsIn(run.other, |run.body.tu|) && |run.other| == 1
      && IngestResource(b, Some(res), env) == AttachExtras(run.body, run.other, [["ru few"]], "ru-RU", key)
  {
    var env := Paragraphs(key);
    RussianItems(key);
    RussianReturns(key);
    IngestPluralSteps(b, PlainInfo("ru-RU"), EnPlural, RuPlural, env, RuSegs);
    PluralSegments(key);
    PluralExtras();
    PluralOtherCount(PlainInfo("ru-RU"), EnPlural, Some(RuPlural), env);
  }

  lemma RussianItems(key: KeyFn)
    ensures Flatten(PluralGroups(PlainInfo("ru-RU"), EnPlural, Some(RuPlural), Paragraphs(key)))
      == [Item(PlainUnit("one test", [Variant("ru-RU", Some("ru one"))]), false),
          Item(PlainUnit("some tests", [Variant("ru-RU", Some("ru other"))]), true)]
  {
    RussianShape(key);
    TwoGroups([Item(PlainUnit("one test", [Variant("ru-RU", Some("ru one"))]), false)],
              [Item(PlainUnit("some tests", [Variant("ru-RU", Some("ru other"))]), true)]);
  }

  /** One extra category with one segment goes to the first "other" slot. */
  lemma AttachOne(b: Body, other: seq<Option<nat>>, seg: string, locale: string, key: KeyFn)
    requires WellFormed(b, key) && SlotsIn(other, |b.tu|) && |other| >= 1
    ensures AttachExtras(b, other, [[seg]], locale, key) == AttachAt(b, other[0], Variant(locale, Some(seg)), key)
  {
    assert [[seg]][..0] == [] && [seg][..0] == [];
    assert other[0] in other;
    assert AttachCategory(b, other, [], locale, key) == b;
  }

  /**
   * The extra category is lost when the "other" unit merges into a unit
   * already held: its object is not the one stored, so the "few" segment
   * reaches no unit of the document.
   */
  lemma PluralExtraLostOnMerge(key: KeyFn, held: Unit, res: Resource, env: Env)
    requires key(held.head) == key(PlainHead("some tests"))
    requires key(PlainHead("one test")) != key(PlainHead("some tests"))
    requires held.variants == [Variant(En, Some("some tests"))]
    requires res == PluralResource(PlainInfo("ru-RU"), EnPlural, Some(RuPlural)) && env == Paragraphs(key)
    ensures var b := Body([held], map[key(held.head) := Live(0)]);
      WellFormed(b, key) && !Throws(Some(res), env) &&
      var r := IngestResource(b, Some(res), env);
      && |r.tu| == 2
      && r.tu[0].variants == [Variant(En, Some("some tests")), Variant("ru-RU", Some("ru other"))]
      && forall u :: u in r.tu ==> Variant("ru-RU", Some("ru few")) !in u.variants
  {
    LostOnMergeUnits(key, held, res, env);
    NoFew([held.(variants := RuOtherItem.unit.variants), RuOneItem.unit], held);
  }

  /** The Russian resource added to a document holding the "other" source: the units after the merge. */
  lemma LostOnMergeUnits(key: KeyFn, held: Unit, res: Resource, env: Env)
    requires key(held.head) == key(PlainHead("some tests"))
    requires key(PlainHead("one test")) != key(PlainHead("some tests"))
    requires held.variants == [Variant(En, Some("some tests"))]
    requires res == PluralResource(PlainInfo("ru-RU"), EnPlural, Some(RuPlural)) && env == Paragraphs(key)
    ensures var b := Body([held], map[key(held.head) := Live(0)]);
      WellFormed(b, key) && !Throws(Some(res), env) &&
      IngestResource(b, Some(res), env).tu == [held.(variants := RuOtherItem.unit.variants), RuOneItem.unit]
  {
    var b := Body([held], map[key(held.head) := Live(0)]);
    MergedFeed(b, held, key);
    RussianSteps(key, b);
    var run := Feed(b, [RuOneItem, RuOtherItem], key);
    LostAttach(run.body, run.other, key);
  }

  lemma MergedFeed(b: Body, held: Unit, key: KeyFn)
    requires b == Body([held], map[key(held.head) := Live(0)])
    requires key(held.head) == key(PlainHead("some tests"))
    requires key(PlainHead("one test")) != key(PlainHead("some tests"))
    requires held.variants == [Variant(En, Some("some tests"))]
    ensures WellFormed(b, key)
    ensures Feed(b, [RuOneItem, RuOtherItem], key).body.tu == [held.(variants := RuOtherItem.unit.variants), RuOneItem.unit]
    ensures Feed(b, [RuOneItem, RuOtherItem], key).other == [None]
  {
    MergeSecond(b, RuOneItem, RuOtherItem, key);
    OtherVariantsMerged();
  }

  /** Merging the "other" unit's variants into a unit holding only its source gives the "other" unit's variants. */
  lemma OtherVariantsMerged()
    ensures AddVariants([Variant(En, Some("some tests"))], RuOtherItem.unit.variants) == RuOtherItem.unit.variants
  {
    var x := Variant(En, Some("some tests"));
    var y := Variant("ru-RU", Some("ru other"));
    assert RuOtherItem.unit.variants == [x, y];
    assert [x, y][..1] == [x] && [x][..0] == [];
    assert AddVariants([x], [x]) == [x];
  }

  lemma NoFew(tu: seq<Unit>, held: Unit)
    requires tu == [held.(variants := RuOtherItem.unit.variants), RuOneItem.unit]
    ensures forall u :: u in tu ==> Variant("ru-RU", Some("ru few")) !in u.variants
  {
  }

  /** With no appended "other" unit to reach, the extra segment changes nothing. */
  lemma LostAttach(b: Body, other: seq<Option<nat>>, key: KeyFn)
    requires WellFormed(b, key) && other == [None]
    ensures AttachExtras(b, other, [["ru few"]], "ru-RU", key) == b
  {
    AttachOne(b, other, "ru few", "ru-RU", key);
  }

  /** Feeding a fresh item and then one whose key is held at index 0. */
  lemma MergeSecond(b: Body, i0: Item, i1: Item, key: KeyFn)
    requires WellFormed(b, key) && |b.tu| == 1 && b.tuhash == map[key(b.tu[0].head) := Live(0)]
    requires key(i0.unit.head) != key(b.tu[0].head) && key(i1.unit.head) == key(b.tu[0].head)
    requires !i0.isOther && i1.isOther
    ensures Feed(b, [i0, i1], key).body.tu
      == [b.tu[0].(variants := AddVariants(b.tu[0].variants, i1.unit.variants)), i0.unit]
    ensures Feed(b, [i0, i1], key).other == [None]
  {
    assert [i0, i1][..1] == [i0];
    assert [i0][..0] == [];
    assert Feed(b, [], key) == Run(b, []);
    var r0 := Feed(b, [i0], key);
    assert r0 == Run(Insert(b, i0.unit, key), []);
    assert r0.body.tu == b.tu + [i0.unit];
    assert r0.body.tuhash[key(i1.unit.head)] == Live(0);
  }
}
