/**
 * Ingestion of a localizable resource (addResource) as a pure function
 * of the unit list and index: the resource becomes an ordered list of
 * freshly built units, each merged in through the single merge-in step;
 * for a plural resource, the segments of target categories the source
 * lacks are then added to the units of the source's "other" category.
 */
module Ingest {
  import opened Wrappers
  import opened Units
  import opened Helpers
  import opened Store

  /** What every resource kind offers: locales, context, flavor, project and datatype. */
  datatype ResInfo = ResInfo(
    sourceLocale: Option<string>,
    targetLocale: Option<string>,
    context: Option<string>,
    flavor: Option<string>,
    project: Option<string>,
    dataType: Option<string>)

  /** Plural strings keyed by category, in key order; the keys of an object are distinct. */
  type Plurals = p: seq<(string, Option<string>)> | UniqueKeys(p)

  /** The three resource kinds. */
  datatype Resource =
    | StringResource(info: ResInfo, source: Option<string>, target: Option<string>)
    | ArrayResource(info: ResInfo, sourceArray: seq<Option<string>>, targetArray: Option<seq<Option<string>>>)
    | PluralResource(info: ResInfo, sourcePlurals: Plurals, targetPlurals: Option<Plurals>)

  /** The document state and collaborators ingestion depends on. */
  datatype Env = Env(docLocale: string, segtype: string, split: Splitter, key: KeyFn)

  /** A resource is taken only if present and in the document's source locale. */
  predicate Accepts(res: Option<Resource>, docLocale: string) {
    res.Some? && res.value.info.sourceLocale == Some(docLocale)
  }

  /** Targets are added only for a target locale that is set and differs from the document's. */
  predicate AddTarget(info: ResInfo, docLocale: string) {
    Truthy(info.targetLocale) && info.targetLocale.value != docLocale
  }

  function TargetLocale(info: ResInfo): string {
    if info.targetLocale.Some? then info.targetLocale.value else ""
  }

  /** The x-context, x-flavor and x-project properties every produced unit carries. */
  function UnitProps(info: ResInfo): Props {
    AddProperties([], [("x-context", info.context), ("x-flavor", info.flavor), ("x-project", info.project)])
  }

  /**
   * Each of x-context, x-flavor and x-project reads the resource's value
   * when that value is truthy, and is absent otherwise.
   */
  lemma UnitPropsGet(info: ResInfo)
    ensures Get(UnitProps(info), "x-context") == if Truthy(info.context) then info.context else None
    ensures Get(UnitProps(info), "x-flavor") == if Truthy(info.flavor) then info.flavor else None
    ensures Get(UnitProps(info), "x-project") == if Truthy(info.project) then info.project else None
  {
    var q := [("x-context", info.context), ("x-flavor", info.flavor), ("x-project", info.project)];
    if Truthy(info.context) { AddPropertiesLast([], q, "x-context", 0); } else { AddPropertiesKeep([], q, "x-context"); }
    if Truthy(info.flavor) { AddPropertiesLast([], q, "x-flavor", 1); } else { AddPropertiesKeep([], q, "x-flavor"); }
    if Truthy(info.project) { AddPropertiesLast([], q, "x-project", 2); } else { AddPropertiesKeep([], q, "x-project"); }
  }

  /** A fresh unit for one source segment, with its source variant and an optional target. */
  function NewUnit(info: ResInfo, locale: string, segment: string, target: Option<Variant>): (u: Unit)
    ensures u.head == Head(Some(locale), Some(segment), info.dataType, UnitProps(info), None)
    ensures |u.variants| >= 1 && u.variants[0] == Variant(locale, Some(segment))
    ensures target.None? ==> u.variants == [Variant(locale, Some(segment))]
    ensures target.Some? && target.value.locale != locale ==> u.variants == [Variant(locale, Some(segment)), target.value]
  {
    var first := AddVariant([], Variant(locale, Some(segment)));
    Unit(Head(Some(locale), Some(segment), info.dataType, UnitProps(info), None),
         if target.Some? then AddVariant(first, target.value) else first)
  }

  /** A unit on its way in, flagged when it belongs to the plural "other" category. */
  datatype Item = Item(unit: Unit, isOther: bool)

  function Flatten<T>(gs: seq<seq<T>>): (r: seq<T>)
    decreases |gs|
  {
    if gs == [] then [] else Flatten(gs[..|gs| - 1]) + gs[|gs| - 1]
  }

  function UnitsOf(items: seq<Item>): (us: seq<Unit>)
    ensures |us| == |items| && forall i :: 0 <= i < |items| ==> us[i] == items[i].unit
  {
    seq(|items|, i requires 0 <= i < |items| => items[i].unit)
  }

  // ---------------------------------------------------------------- strings

  /**
   * The target variant of source segment i of a string resource: only
   * when targets apply, the target is set and its i-th segment exists
   * and is non-empty.
   */
  function StringTarget(info: ResInfo, target: Option<string>, env: Env, i: nat): (t: Option<Variant>)
    ensures t.Some? ==> AddTarget(info, env.docLocale) && Truthy(target) && Truthy(t.value.text)
  {
    if AddTarget(info, env.docLocale) && Truthy(target) then
      var tsegs := SegmentString(target, TargetLocale(info), env.segtype, env.split);
      if i < |tsegs| && tsegs[i] != "" then Some(Variant(TargetLocale(info), Some(tsegs[i]))) else None
    else None
  }

  /** The units of a string resource: one per source segment, in order. */
  function StringItems(info: ResInfo, source: Option<string>, target: Option<string>, env: Env): (items: seq<Item>)
    ensures var segs := SegmentString(source, env.docLocale, env.segtype, env.split);
      && |items| == |segs|
      && forall i :: 0 <= i < |items| ==>
           && items[i].unit.head.source == Some(segs[i])
           && items[i].unit.head.properties == UnitProps(info)
           && |items[i].unit.variants| >= 1 && items[i].unit.variants[0] == Variant(env.docLocale, Some(segs[i]))
           && !items[i].isOther
    ensures !AddTarget(info, env.docLocale) || !Truthy(target) ==>
      forall i :: 0 <= i < |items| ==> |items[i].unit.variants| == 1
  {
    var segs := SegmentString(source, env.docLocale, env.segtype, env.split);
    seq(|segs|, i requires 0 <= i < |segs| =>
      Item(NewUnit(info, env.docLocale, segs[i], StringTarget(info, target, env, i)), false))
  }

  // ----------------------------------------------------------------- arrays

  function SegmentAll(arr: seq<Option<string>>, locale: string, env: Env): (r: seq<seq<string>>)
    ensures |r| == |arr|
    ensures forall i :: 0 <= i < |arr| ==> r[i] == SegmentString(arr[i], locale, env.segtype, env.split)
  {
    seq(|arr|, i requires 0 <= i < |arr| => SegmentString(arr[i], locale, env.segtype, env.split))
  }

  /**
   * The units of one array element: the j-th target segment goes with the
   * j-th source segment, and a source segment past the end of the target
   * element, or of an element without a target, gets only its source.
   */
  function ElementItems(info: ResInfo, env: Env, segs: seq<string>, tsegs: Option<seq<string>>): (items: seq<Item>)
    ensures |items| == |segs|
    ensures forall j :: 0 <= j < |segs| ==>
      && items[j].unit.head == Head(Some(env.docLocale), Some(segs[j]), info.dataType, UnitProps(info), None)
      && |items[j].unit.variants| >= 1 && items[j].unit.variants[0] == Variant(env.docLocale, Some(segs[j]))
      && !items[j].isOther
    ensures forall j :: 0 <= j < |segs| && (tsegs.None? || j >= |tsegs.value|) ==>
      items[j].unit.variants == [Variant(env.docLocale, Some(segs[j]))]
    ensures forall j :: 0 <= j < |segs| && tsegs.Some? && j < |tsegs.value| && TargetLocale(info) != env.docLocale ==>
      items[j].unit.variants == [Variant(env.docLocale, Some(segs[j])), Variant(TargetLocale(info), Some(tsegs.value[j]))]
  {
    seq(|segs|, j requires 0 <= j < |segs| =>
      Item(NewUnit(info, env.docLocale, segs[j], SegmentTarget(info, tsegs, j)), false))
  }

  /** The target variant of segment j: the j-th target segment, when there is one. */
  function SegmentTarget(info: ResInfo, tsegs: Option<seq<string>>, j: nat): Option<Variant> {
    if tsegs.Some? && j < |tsegs.value| then Some(Variant(TargetLocale(info), Some(tsegs.value[j]))) else None
  }

  /** Target segments of element i, when targets apply and the target array has an element i. */
  function ElementTarget(info: ResInfo, targetArray: Option<seq<Option<string>>>, env: Env, i: nat): Option<seq<string>> {
    if AddTarget(info, env.docLocale) && targetArray.Some? && i < |targetArray.value|
    then Some(SegmentString(targetArray.value[i], TargetLocale(info), env.segtype, env.split))
    else None
  }

  /** The units of an array resource, grouped by element, element-major. */
  function ArrayGroups(info: ResInfo, sourceArray: seq<Option<string>>, targetArray: Option<seq<Option<string>>>, env: Env)
    : (gs: seq<seq<Item>>)
    ensures |gs| == |sourceArray|
  {
    var srcArr := SegmentAll(sourceArray, env.docLocale, env);
    seq(|srcArr|, i requires 0 <= i < |srcArr| =>
      ElementItems(info, env, srcArr[i], ElementTarget(info, targetArray, env, i)))
  }

  /**
   * When targets apply but the resource has no target array, the first
   * segment of any element reads an element of that missing array and
   * throws a TypeError, before its unit is added.
   */
  predicate ArrayThrows(info: ResInfo, sourceArray: seq<Option<string>>,
                        targetArray: Option<seq<Option<string>>>, env: Env)
  {
    && AddTarget(info, env.docLocale) && targetArray.None?
    && exists i :: 0 <= i < |sourceArray| && SegmentString(sourceArray[i], env.docLocale, env.segtype, env.split) != []
  }

  // ---------------------------------------------------------------- plurals

  /** objectMap of segmentString over a plural map: same categories, same order. */
  function SegmentPlurals(p: Plurals, locale: string, env: Env): (r: seq<(string, seq<string>)>)
    ensures |r| == |p| && Keys(r) == Keys(p) && UniqueKeys(r)
    ensures forall i :: 0 <= i < |p| ==>
      r[i] == (p[i].0, SegmentString(p[i].1, locale, env.segtype, env.split))
  {
    var r := seq(|p|, i requires 0 <= i < |p| => (p[i].0, SegmentString(p[i].1, locale, env.segtype, env.split)));
    assert forall i :: 0 <= i < |p| ==> r[i].0 == p[i].0;
    r
  }

  /** Reading `a[i]` of a JavaScript array of strings: undefined past its end. */
  function TargetAt(tsegs: seq<string>, i: nat): (r: Option<string>)
    ensures r.Some? <==> i < |tsegs|
    ensures r.Some? ==> r.value == tsegs[i]
  {
    if i < |tsegs| then Some(tsegs[i]) else None
  }

  /**
   * The units of one source category: when the same target category
   * exists, segment i gets a target variant holding that category's
   * segment i, whose text is undefined past the category's end.
   */
  function CategoryItems(info: ResInfo, env: Env, category: string, segs: seq<string>, tsegs: Option<seq<string>>)
    : (items: seq<Item>)
    ensures |items| == |segs|
    ensures forall i :: 0 <= i < |segs| ==>
      && items[i].unit.head == Head(Some(env.docLocale), Some(segs[i]), info.dataType, UnitProps(info), None)
      && |items[i].unit.variants| >= 1 && items[i].unit.variants[0] == Variant(env.docLocale, Some(segs[i]))
      && items[i].isOther == (category == "other")
    ensures tsegs.None? ==> forall i :: 0 <= i < |segs| ==>
      items[i].unit.variants == [Variant(env.docLocale, Some(segs[i]))]
    ensures tsegs.Some? && TargetLocale(info) != env.docLocale ==> forall i :: 0 <= i < |segs| ==>
      items[i].unit.variants == [Variant(env.docLocale, Some(segs[i])), Variant(TargetLocale(info), TargetAt(tsegs.value, i))]
  {
    seq(|segs|, i requires 0 <= i < |segs| =>
      Item(NewUnit(info, env.docLocale, segs[i],
                   if tsegs.Some? then Some(Variant(TargetLocale(info), TargetAt(tsegs.value, i))) else None),
           category == "other"))
  }

  /** The segmented target plurals that take part: only when targets apply. */
  function TargetPlurals(info: ResInfo, tp: Option<Plurals>, env: Env): (r: Option<seq<(string, seq<string>)>>)
    ensures r.Some? <==> AddTarget(info, env.docLocale) && tp.Some?
  {
    if AddTarget(info, env.docLocale) && tp.Some?
    then Some(SegmentPlurals(tp.value, TargetLocale(info), env))
    else None
  }

  function CategoryTarget(tarP: Option<seq<(string, seq<string>)>>, category: string): Option<seq<string>> {
    if tarP.Some? then Get(tarP.value, category) else None
  }

  /** Number of segments of the source "other" category: the length of the `other` list. */
  function OtherLength(srcP: seq<(string, seq<string>)>): nat {
    match Get(srcP, "other")
    case Some(segs) => |segs|
    case None => 0
  }

  /** Segments of the target categories the source lacks, in target key order. */
  function ExtraSegments(srcP: seq<(string, seq<string>)>, tarP: seq<(string, seq<string>)>): (r: seq<seq<string>>)
    ensures forall segs :: segs in r ==> exists c :: (c, segs) in tarP && c !in Keys(srcP)
    ensures forall c :: 0 <= c < |tarP| && tarP[c].0 !in Keys(srcP) ==> tarP[c].1 in r
    decreases |tarP|
  {
    if tarP == [] then []
    else
      var n := |tarP| - 1;
      var last := tarP[n];
      var r0 := ExtraSegments(srcP, tarP[..n]);
      assert forall x :: x in tarP[..n] ==> x in tarP;
      assert forall c :: 0 <= c < n ==> tarP[..n][c] == tarP[c];
      GetKeys(srcP, last.0);
      if Get(srcP, last.0).None? then r0 + [last.1] else r0
  }

  /** The extra categories of consecutive runs of target categories are those of each run, in order. */
  lemma {:induction false} ExtraSegmentsAppend(srcP: seq<(string, seq<string>)>, t1: seq<(string, seq<string>)>,
                                               t2: seq<(string, seq<string>)>)
    ensures ExtraSegments(srcP, t1 + t2) == ExtraSegments(srcP, t1) + ExtraSegments(srcP, t2)
    decreases |t2|
  {
    if t2 == [] {
      assert t1 + t2 == t1;
    } else {
      var n := |t2| - 1;
      assert (t1 + t2)[..|t1 + t2| - 1] == t1 + t2[..n];
      assert (t1 + t2)[|t1 + t2| - 1] == t2[n];
      ExtraSegmentsAppend(srcP, t1, t2[..n]);
    }
  }

  /** A single target category is extra exactly when the source lacks it. */
  lemma ExtraSegmentsOne(srcP: seq<(string, seq<string>)>, c: string, segs: seq<string>)
    ensures ExtraSegments(srcP, [(c, segs)]) == if c in Keys(srcP) then [] else [segs]
  {
    assert [(c, segs)][..0] == [];
    GetKeys(srcP, c);
  }

  /** Some extra category has more segments than there are "other" units. */
  predicate Overflows(extras: seq<seq<string>>, bound: nat) {
    exists c :: 0 <= c < |extras| && |extras[c]| > bound
  }

  /**
   * The extras loop reads `other[i]` for every segment i of an extra
   * category and throws a TypeError at the first one past the end of
   * `other`.
   */
  predicate PluralThrows(info: ResInfo, sp: Plurals, tp: Option<Plurals>, env: Env) {
    var srcP := SegmentPlurals(sp, env.docLocale, env);
    var tarP := TargetPlurals(info, tp, env);
    tarP.Some? && Overflows(ExtraSegments(srcP, tarP.value), OtherLength(srcP))
  }

  function PluralGroups(info: ResInfo, sp: Plurals, tp: Option<Plurals>, env: Env): (gs: seq<seq<Item>>)
    ensures var srcP := SegmentPlurals(sp, env.docLocale, env);
      && |gs| == |srcP|
      && forall g :: 0 <= g < |gs| ==>
           && |gs[g]| == |srcP[g].1|
           && forall it :: it in gs[g] ==> it.isOther == (srcP[g].0 == "other")
  {
    var srcP := SegmentPlurals(sp, env.docLocale, env);
    var tarP := TargetPlurals(info, tp, env);
    seq(|srcP|, g requires 0 <= g < |srcP| =>
      CategoryItems(info, env, srcP[g].0, srcP[g].1, CategoryTarget(tarP, srcP[g].0)))
  }

  // -------------------------------------------------------- feeding units

  predicate SlotsIn(other: seq<Option<nat>>, n: nat) {
    forall s :: s in other && s.Some? ==> s.value < n
  }

  function OtherCount(items: seq<Item>): nat
    decreases |items|
  {
    if items == [] then 0
    else OtherCount(items[..|items| - 1]) + (if items[|items| - 1].isOther then 1 else 0)
  }

  /** The units of the "other" category, in the order they are pushed onto `other`. */
  function OtherUnits(items: seq<Item>): (us: seq<Unit>)
    ensures |us| == OtherCount(items)
    decreases |items|
  {
    if items == [] then []
    else
      var it := items[|items| - 1];
      OtherUnits(items[..|items| - 1]) + (if it.isOther then [it.unit] else [])
  }

  /** The body after the units so far, and where each "other" unit landed. */
  datatype Run = Run(body: Body, other: seq<Option<nat>>)

  /** Each item merged in through Insert, in order, remembering where "other" units landed. */
  function Feed(b: Body, items: seq<Item>, key: KeyFn): (r: Run)
    requires WellFormed(b, key)
    ensures WellFormed(r.body, key)
    ensures SlotsIn(r.other, |r.body.tu|)
    ensures |r.other| == OtherCount(items)
    decreases |items|
  {
    if items == [] then Run(b, [])
    else
      var r0 := Feed(b, items[..|items| - 1], key);
      var it := items[|items| - 1];
      var body := Insert(r0.body, it.unit, key);
      Run(body, if it.isOther then r0.other + [Slot(r0.body, it.unit, key)] else r0.other)
  }

  /** Feeding units in only adds: nothing is removed, and an index that covers the list keeps covering it. */
  lemma {:induction false} FeedGrows(b: Body, items: seq<Item>, key: KeyFn)
    requires WellFormed(b, key)
    ensures Grows(b, Feed(b, items, key).body)
    ensures Indexed(b, key) ==> Indexed(Feed(b, items, key).body, key)
    decreases |items|
  {
    if items != [] {
      var r0 := Feed(b, items[..|items| - 1], key);
      FeedGrows(b, items[..|items| - 1], key);
      GrowsTrans(b, r0.body, Feed(b, items, key).body);
    }
  }

  /**
   * other[i].addVariant(v): only a unit that was appended is still
   * reachable; that unit gains the variant and no other unit changes.
   */
  function AttachAt(b: Body, slot: Option<nat>, v: Variant, key: KeyFn): (r: Body)
    requires WellFormed(b, key) && (slot.Some? ==> slot.value < |b.tu|)
    ensures WellFormed(r, key) && Grows(b, r) && |r.tu| == |b.tu| && r.tuhash == b.tuhash
    ensures Indexed(b, key) ==> Indexed(r, key)
    ensures slot.None? ==> r == b
    ensures slot.Some? ==>
      && r.tu[slot.value].head == b.tu[slot.value].head
      && r.tu[slot.value].variants == AddVariant(b.tu[slot.value].variants, v)
      && forall j :: 0 <= j < |b.tu| && j != slot.value ==> r.tu[j] == b.tu[j]
  {
    match slot
    case None => b
    case Some(k) => Body(b.tu[k := b.tu[k].(variants := AddVariant(b.tu[k].variants, v))], b.tuhash)
  }

  /**
   * One extra category: its segment i goes to other[i]; the first segment
   * past the end of `other` throws, so no later segment is reached.
   */
  function AttachCategory(b: Body, other: seq<Option<nat>>, segs: seq<string>, locale: string, key: KeyFn): (r: Body)
    requires WellFormed(b, key) && SlotsIn(other, |b.tu|)
    ensures WellFormed(r, key) && Grows(b, r) && |r.tu| == |b.tu| && r.tuhash == b.tuhash
    ensures Indexed(b, key) ==> Indexed(r, key)
    decreases |segs|
  {
    if segs == [] then b
    else
      var n := |segs| - 1;
      var r0 := AttachCategory(b, other, segs[..n], locale, key);
      if n < |other| then
        assert other[n] in other;
        var r := AttachAt(r0, other[n], Variant(locale, Some(segs[n])), key);
        GrowsTrans(b, r0, r);
        r
      else r0
  }

  /** One more segment of an extra category attaches it at its slot, if there is one. */
  lemma AttachCategoryStep(b: Body, other: seq<Option<nat>>, segs: seq<string>, locale: string, key: KeyFn, i: nat)
    requires WellFormed(b, key) && SlotsIn(other, |b.tu|) && i < |segs|
    ensures i < |other| ==> other[i] in other
    ensures i < |other| ==>
      AttachCategory(b, other, segs[..i + 1], locale, key) ==
        AttachAt(AttachCategory(b, other, segs[..i], locale, key), other[i], Variant(locale, Some(segs[i])), key)
    ensures i >= |other| ==>
      AttachCategory(b, other, segs[..i + 1], locale, key) == AttachCategory(b, other, segs[..i], locale, key)
  {
    assert segs[..i + 1][..i] == segs[..i];
  }

  /** Once the segments run past the end of `other`, the rest change nothing. */
  lemma {:induction false} AttachCategoryCapped(b: Body, other: seq<Option<nat>>, segs: seq<string>, locale: string,
                                                key: KeyFn, m: nat)
    requires WellFormed(b, key) && SlotsIn(other, |b.tu|) && |other| <= m <= |segs|
    ensures AttachCategory(b, other, segs, locale, key) == AttachCategory(b, other, segs[..m], locale, key)
    decreases |segs| - m
  {
    if m < |segs| {
      AttachCategoryCapped(b, other, segs, locale, key, m + 1);
      AttachCategoryStep(b, other, segs, locale, key, m);
    } else {
      assert segs[..m] == segs;
    }
  }

  /**
   * All extra categories, in target key order; once one of them has run
   * past the end of `other`, the later ones are never reached.
   */
  function AttachExtras(b: Body, other: seq<Option<nat>>, extras: seq<seq<string>>, locale: string, key: KeyFn)
    : (r: Body)
    requires WellFormed(b, key) && SlotsIn(other, |b.tu|)
    ensures WellFormed(r, key) && Grows(b, r) && |r.tu| == |b.tu| && r.tuhash == b.tuhash
    ensures Indexed(b, key) ==> Indexed(r, key)
    decreases |extras|
  {
    if extras == [] then b
    else
      var n := |extras| - 1;
      var r0 := AttachExtras(b, other, extras[..n], locale, key);
      if Overflows(extras[..n], |other|) then r0
      else
        var r := AttachCategory(r0, other, extras[n], locale, key);
        GrowsTrans(b, r0, r);
        r
  }

  /** After the category that ran past `other`, further categories change nothing. */
  lemma {:induction false} AttachExtrasStopped(b: Body, other: seq<Option<nat>>, extras: seq<seq<string>>,
                                               locale: string, key: KeyFn, m: nat)
    requires WellFormed(b, key) && SlotsIn(other, |b.tu|) && m <= |extras| && Overflows(extras[..m], |other|)
    ensures AttachExtras(b, other, extras, locale, key) == AttachExtras(b, other, extras[..m], locale, key)
    decreases |extras|
  {
    var n := |extras| - 1;
    if m <= n {
      var c :| 0 <= c < m && |extras[..m][c]| > |other|;
      assert extras[..n][c] == extras[..m][c];
      assert Overflows(extras[..n], |other|);
      assert AttachExtras(b, other, extras, locale, key) == AttachExtras(b, other, extras[..n], locale, key);
      assert extras[..n][..m] == extras[..m];
      AttachExtrasStopped(b, other, extras[..n], locale, key, m);
    } else {
      assert extras[..m] == extras;
    }
  }

  // ------------------------------------------------------------ addResource

  /** Where addResource throws a TypeError, after changing what it had reached. */
  predicate Throws(res: Option<Resource>, env: Env) {
    && Accepts(res, env.docLocale)
    && match res.value
       case PluralResource(info, sp, tp) => PluralThrows(info, sp, tp, env)
       case ArrayResource(info, sa, ta) => ArrayThrows(info, sa, ta, env)
       case StringResource(_, _, _) => false
  }

  function ResourceItems(res: Resource, env: Env): seq<Item> {
    match res
    case StringResource(info, s, t) => StringItems(info, s, t, env)
    case ArrayResource(info, sa, ta) => Flatten(ArrayGroups(info, sa, ta, env))
    case PluralResource(info, sp, tp) => Flatten(PluralGroups(info, sp, tp, env))
  }

  /** addResource on values: the state it leaves, whether it returns or throws. */
  function IngestResource(b: Body, res: Option<Resource>, env: Env): (r: Body)
    requires WellFormed(b, env.key)
    ensures WellFormed(r, env.key) && Grows(b, r)
    ensures Indexed(b, env.key) ==> Indexed(r, env.key)
    ensures !Accepts(res, env.docLocale) ==> r == b
  {
    if !Accepts(res, env.docLocale) then b
    else
      var run := Feed(b, ResourceItems(res.value, env), env.key);
      FeedGrows(b, ResourceItems(res.value, env), env.key);
      match res.value
      case PluralResource(info, sp, tp) =>
        var tarP := TargetPlurals(info, tp, env);
        if tarP.Some? then
          var extras := ExtraSegments(SegmentPlurals(sp, env.docLocale, env), tarP.value);
          var r := AttachExtras(run.body, run.other, extras, TargetLocale(info), env.key);
          GrowsTrans(b, run.body, r);
          r
        else run.body
      case ArrayResource(info, sa, ta) => if ArrayThrows(info, sa, ta, env) then b else run.body
      case StringResource(_, _, _) => run.body
  }

  // ----------------------------------------------------------- the `other` list

  lemma {:induction false} OtherCountAppend(a: seq<Item>, c: seq<Item>)
    ensures OtherCount(a + c) == OtherCount(a) + OtherCount(c)
    decreases |c|
  {
    if c == [] {
      assert a + c == a;
    } else {
      var n := |c| - 1;
      assert (a + c)[..|a + c| - 1] == a + c[..n];
      assert (a + c)[|a + c| - 1] == c[n];
      OtherCountAppend(a, c[..n]);
    }
  }

  lemma {:induction false} OtherCountUniform(items: seq<Item>, flag: bool)
    requires forall it :: it in items ==> it.isOther == flag
    ensures OtherCount(items) == if flag then |items| else 0
    decreases |items|
  {
    if items != [] {
      var n := |items| - 1;
      assert forall it :: it in items[..n] ==> it in items;
      OtherCountUniform(items[..n], flag);
      assert items[n] in items;
    }
  }

  lemma {:induction false} GetLast<V>(p: seq<(string, V)>, k: string)
    requires p != [] && UniqueKeys(p)
    ensures Get(p, k) == if p[|p| - 1].0 == k then Some(p[|p| - 1].1) else Get(p[..|p| - 1], k)
    decreases |p|
  {
    if |p| > 1 {
      assert p[1..][..|p| - 2] == p[..|p| - 1][1..];
      GetLast(p[1..], k);
    }
  }

  lemma {:induction false} OtherCountGroups(srcP: seq<(string, seq<string>)>, gs: seq<seq<Item>>)
    requires UniqueKeys(srcP) && |gs| == |srcP|
    requires forall g :: 0 <= g < |gs| ==>
      |gs[g]| == |srcP[g].1| && forall it :: it in gs[g] ==> it.isOther == (srcP[g].0 == "other")
    ensures OtherCount(Flatten(gs)) == OtherLength(srcP)
    decreases |gs|
  {
    if gs != [] {
      var n := |gs| - 1;
      OtherCountGroups(srcP[..n], gs[..n]);
      OtherCountAppend(Flatten(gs[..n]), gs[n]);
      OtherCountUniform(gs[n], srcP[n].0 == "other");
      GetLast(srcP, "other");
    }
  }

  /** The `other` list has one entry per segment of the source "other" category. */
  lemma PluralOtherCount(info: ResInfo, sp: Plurals, tp: Option<Plurals>, env: Env)
    ensures OtherCount(Flatten(PluralGroups(info, sp, tp, env))) == OtherLength(SegmentPlurals(sp, env.docLocale, env))
  {
    OtherCountGroups(SegmentPlurals(sp, env.docLocale, env), PluralGroups(info, sp, tp, env));
  }
}
