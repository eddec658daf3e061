/**
 * The TMX document: its header settings, its list of translation units
 * and the index of those units by identity key, updated in place by the
 * document's methods.
 */
module Tmx {
  import opened Wrappers
  import opened Units
  import opened XmlTree
  import opened Helpers
  import opened Store
  import opened Ingest
  import opened Codec

  /** The construction options the document looks at; an absent field is JavaScript `undefined`. */
  datatype Options = Options(
    properties: Option<Props>,
    sourceLocale: Option<string>,
    version: Option<string>,
    segmentation: Option<string>,
    creationtool: Option<string>,
    creationtoolversion: Option<string>)

  /** The settings of a document built without options. */
  const Defaults: Settings := Settings("1.4", [], "en-US", "paragraph", "unknown", None, None)

  /**
   * The settings the constructor derives from its options: the defaults,
   * overridden by every option that is given (and, for the locale, the
   * segmentation and the tool settings, non-empty and valid).
   */
  function Initial(options: Option<Options>): (s: Settings)
    ensures options.None? ==> s == Defaults
    ensures s.sourceLocale != "" && s.dataType == "unknown"
    ensures s.segtype == "paragraph" || s.segtype == "sentence"
    ensures s.creationtool.None? || Truthy(s.creationtool)
    ensures s.creationtoolversion.None? || Truthy(s.creationtoolversion)
    ensures options.Some? && Truthy(options.value.sourceLocale) ==> s.sourceLocale == options.value.sourceLocale.value
    ensures options.Some? && !Truthy(options.value.sourceLocale) ==> s.sourceLocale == "en-US"
    ensures options.Some? ==> s.segtype == SegmentationOption(options.value.segmentation)
    ensures options.Some? ==> s.version == if options.value.version.Some? then options.value.version.value else "1.4"
    ensures options.Some? ==> s.properties == if options.value.properties.Some? then options.value.properties.value else []
    ensures options.Some? ==> s.creationtool == if Truthy(options.value.creationtool) then options.value.creationtool else None
    ensures options.Some? ==>
      s.creationtoolversion == if Truthy(options.value.creationtoolversion) then options.value.creationtoolversion else None
  {
    match options
    case None => Defaults
    case Some(o) =>
      Settings(
        if o.version.Some? then o.version.value else Defaults.version,
        if o.properties.Some? then o.properties.value else Defaults.properties,
        if Truthy(o.sourceLocale) then o.sourceLocale.value else Defaults.sourceLocale,
        SegmentationOption(o.segmentation),
        Defaults.dataType,
        if Truthy(o.creationtool) then o.creationtool else None,
        if Truthy(o.creationtoolversion) then o.creationtoolversion else None)
  }

  /** What deserialize ends with. */
  datatype Outcome =
    | NoDocument   // no `<tmx>` element: nothing changes
    | Rejected     // not version 1.4: nothing changes
    | Threw        // a `<tmx>` or `<tu>` element without attributes: an error escapes
    | Parsed       // the units were replaced by the parsed ones

  class Tmx {
    var version: string
    var properties: Props
    var sourceLocale: string
    var segtype: string
    var dataType: string
    var creationtool: Option<string>
    var creationtoolversion: Option<string>
    /** The units, in the order they were added. */
    var tu: seq<Unit>
    /** The units by identity key. */
    var tuhash: map<string, Entry>
    /** The unit library's hashKey. */
    const hashKey: KeyFn

    function Contents(): Body
      reads this
    {
      Body(tu, tuhash)
    }

    function Header(): Settings
      reads this
    {
      Settings(version, properties, sourceLocale, segtype, dataType, creationtool, creationtoolversion)
    }

    ghost predicate Valid()
      reads this
    {
      WellFormed(Contents(), hashKey)
    }

    /** What ingestion sees of the document, with the sentence splitter it is given. */
    function EnvOf(split: Splitter): Env
      reads this
    {
      Env(sourceLocale, segtype, split, hashKey)
    }

    /** An empty document with the settings its options ask for. */
    constructor(options: Option<Options>, key: KeyFn)
      ensures Valid() && Indexed(Contents(), key)
      ensures Header() == Initial(options) && tu == [] && tuhash == map[]
      ensures hashKey == key
    {
      var s := Initial(options);
      version := s.version;
      properties := s.properties;
      sourceLocale := s.sourceLocale;
      segtype := s.segtype;
      dataType := s.dataType;
      creationtool := s.creationtool;
      creationtoolversion := s.creationtoolversion;
      tu := [];
      tuhash := map[];
      hashKey := key;
    }

    /** addProperty: sets one header property. */
    method AddProperty(property: string, value: string)
      modifies this
      ensures properties == Put(old(properties), property, value)
      ensures Get(properties, property) == Some(value)
      ensures Header() == old(Header()).(properties := properties) && Contents() == old(Contents())
    {
      properties := Put(properties, property, value);
    }

    /** size: the number of units held. */
    function Size(): (n: nat)
      reads this
      ensures n == |Contents().tu|
    {
      |tu|
    }

    /**
     * addTranslationUnit: a unit with a new key is appended and registered;
     * otherwise its variants are merged into the unit registered under that
     * key, if that unit is still in the list.
     */
    method AddTranslationUnit(unit: Unit)
      requires Valid()
      modifies this
      ensures Valid() && Header() == old(Header())
      ensures Contents() == Insert(old(Contents()), unit, hashKey)
      ensures hashKey(unit.head) !in old(tuhash) ==> tu == old(tu) + [unit] && Size() == old(Size()) + 1
      ensures hashKey(unit.head) in old(tuhash) ==> Size() == old(Size()) && tuhash == old(tuhash)
    {
      var k := hashKey(unit.head);
      if k in tuhash {
        match tuhash[k]
        case Detached =>
        case Live(i) =>
          tu := tu[i := tu[i].(variants := AddVariants(tu[i].variants, unit.variants))];
      } else {
        tu := tu + [unit];
        tuhash := tuhash[k := Live(|tu| - 1)];
      }
    }

    /** addTranslationUnits: each unit added in turn. */
    method AddTranslationUnits(units: seq<Unit>)
      requires Valid()
      modifies this
      ensures Valid() && Header() == old(Header())
      ensures Contents() == InsertAll(old(Contents()), units, hashKey)
    {
      ghost var b0 := Contents();
      for i := 0 to |units|
        invariant Valid() && Header() == old(Header())
        invariant Contents() == InsertAll(b0, units[..i], hashKey)
      {
        assert units[..i + 1][..i] == units[..i];
        AddTranslationUnit(units[i]);
      }
      assert units[..|units|] == units;
    }

    /** The string branch of addResource: one unit per source segment. */
    method AddStringResource(info: ResInfo, source: Option<string>, target: Option<string>, split: Splitter)
      requires Valid()
      modifies this
      ensures Valid() && Header() == old(Header())
      ensures Contents() == Feed(old(Contents()), StringItems(info, source, target, old(EnvOf(split))), hashKey).body
    {
      var env := EnvOf(split);
      ghost var b0 := Contents();
      ghost var items := StringItems(info, source, target, env);
      var segs := SegmentString(source, env.docLocale, env.segtype, split);
      for i := 0 to |segs|
        invariant Valid() && Header() == old(Header())
        invariant Contents() == Feed(b0, items[..i], hashKey).body
      {
        var unit := NewUnit(info, env.docLocale, segs[i], StringTarget(info, target, env, i));
        StringStep(b0, info, source, target, env, i);
        AddTranslationUnit(unit);
      }
      assert items[..|segs|] == items;
    }

    /**
     * The array branch of addResource: element by element, one unit per
     * segment of each element.  Without a target array while targets
     * apply, the first segment of any element throws before its unit is
     * added.
     */
    method AddArrayResource(info: ResInfo, sourceArray: seq<Option<string>>,
                            targetArray: Option<seq<Option<string>>>, split: Splitter)
      returns (threw: bool)
      requires Valid()
      modifies this
      ensures Valid() && Header() == old(Header())
      ensures threw <==> ArrayThrows(info, sourceArray, targetArray, old(EnvOf(split)))
      ensures threw ==> Contents() == old(Contents())
      ensures !threw ==>
        Contents() == Feed(old(Contents()), Flatten(ArrayGroups(info, sourceArray, targetArray, old(EnvOf(split)))), hashKey).body
    {
      var env := EnvOf(split);
      ghost var b0 := Contents();
      ghost var groups := ArrayGroups(info, sourceArray, targetArray, env);
      var srcArr := SegmentAll(sourceArray, env.docLocale, env);
      var missing := AddTarget(info, env.docLocale) && targetArray.None?;
      threw := false;
      for i := 0 to |srcArr|
        invariant Valid() && Header() == old(Header())
        invariant Contents() == Feed(b0, Flatten(groups[..i]), hashKey).body
        invariant missing ==> Contents() == b0
        invariant missing ==> AllBlank(srcArr[..i])
      {
        if missing && srcArr[i] != [] {
          ArrayThrowsAt(info, sourceArray, targetArray, env, i);
          threw := true;
          return;
        }
        BlankStep(srcArr, i);
        var tsegs := ElementTarget(info, targetArray, env, i);
        ArrayStep(b0, info, sourceArray, targetArray, env, i);
        AddElementUnits(info, srcArr[i], tsegs, split);
      }
      assert groups[..|srcArr|] == groups;
      ArrayReturns(info, sourceArray, targetArray, env);
    }

    /** The units of one array element: segment j of the element goes with segment j of the target element. */
    method AddElementUnits(info: ResInfo, segs: seq<string>, tsegs: Option<seq<string>>, split: Splitter)
      requires Valid()
      modifies this
      ensures Valid() && Header() == old(Header())
      ensures Contents() == Feed(old(Contents()), ElementItems(info, old(EnvOf(split)), segs, tsegs), hashKey).body
    {
      var env := EnvOf(split);
      ghost var b0 := Contents();
      ghost var items := ElementItems(info, env, segs, tsegs);
      for j := 0 to |segs|
        invariant Valid() && Header() == old(Header())
        invariant Contents() == Feed(b0, items[..j], hashKey).body
      {
        var unit := NewUnit(info, env.docLocale, segs[j], SegmentTarget(info, tsegs, j));
        ElementStep(b0, info, env, segs, tsegs, j);
        AddTranslationUnit(unit);
      }
      assert items[..|segs|] == items;
    }

    /**
     * The plural branch of addResource: one unit per segment of each source
     * category, remembering the units of the "other" category; then the
     * segments of target categories the source lacks are added to those
     * units, segment i to the i-th of them.
     */
    method AddPluralResource(info: ResInfo, sourcePlurals: Plurals, targetPlurals: Option<Plurals>, split: Splitter)
      returns (threw: bool)
      requires Valid() && info.sourceLocale == Some(sourceLocale)
      modifies this
      ensures Valid() && Header() == old(Header())
      ensures threw <==> PluralThrows(info, sourcePlurals, targetPlurals, old(EnvOf(split)))
      ensures Contents() ==
        IngestResource(old(Contents()), Some(PluralResource(info, sourcePlurals, targetPlurals)), old(EnvOf(split)))
    {
      var env := EnvOf(split);
      PluralSteps(Contents(), info, sourcePlurals, targetPlurals, env);
      var other := AddCategories(info, sourcePlurals, targetPlurals, split);
      var tarP := TargetPlurals(info, targetPlurals, env);
      threw := false;
      if tarP.Some? {
        threw := AttachExtraCategories(other, SegmentPlurals(sourcePlurals, env.docLocale, env), tarP.value, TargetLocale(info));
      }
    }

    /** The loop over the source categories, in key order; `other` collects where the "other" units landed. */
    method AddCategories(info: ResInfo, sourcePlurals: Plurals, targetPlurals: Option<Plurals>, split: Splitter)
      returns (other: seq<Option<nat>>)
      requires Valid()
      modifies this
      ensures Valid() && Header() == old(Header())
      ensures var run := Feed(old(Contents()), Flatten(PluralGroups(info, sourcePlurals, targetPlurals, old(EnvOf(split)))), hashKey);
        Contents() == run.body && other == run.other
    {
      var env := EnvOf(split);
      ghost var b0 := Contents();
      ghost var groups := PluralGroups(info, sourcePlurals, targetPlurals, env);
      var srcP := SegmentPlurals(sourcePlurals, env.docLocale, env);
      var tarP := TargetPlurals(info, targetPlurals, env);
      other := [];
      for g := 0 to |srcP|
        invariant Valid() && Header() == old(Header())
        invariant Contents() == Feed(b0, Flatten(groups[..g]), hashKey).body
        invariant other == Feed(b0, Flatten(groups[..g]), hashKey).other
      {
        var category := srcP[g].0;
        assert groups[g] == CategoryItems(info, env, category, srcP[g].1, CategoryTarget(tarP, category));
        var slots := AddCategoryUnits(info, category, srcP[g].1, CategoryTarget(tarP, category), split);
        other := other + slots;
        FlattenTake(groups, g);
        FeedAppend(b0, Flatten(groups[..g]), groups[g], hashKey);
      }
      assert groups[..|srcP|] == groups;
    }

    /** The units of one source category; the slots of those the "other" category contributes. */
    method AddCategoryUnits(info: ResInfo, category: string, segs: seq<string>, tsegs: Option<seq<string>>, split: Splitter)
      returns (slots: seq<Option<nat>>)
      requires Valid()
      modifies this
      ensures Valid() && Header() == old(Header())
      ensures var run := Feed(old(Contents()), CategoryItems(info, old(EnvOf(split)), category, segs, tsegs), hashKey);
        Contents() == run.body && slots == run.other
    {
      var env := EnvOf(split);
      ghost var b0 := Contents();
      ghost var items := CategoryItems(info, env, category, segs, tsegs);
      slots := [];
      for j := 0 to |segs|
        invariant Valid() && Header() == old(Header())
        invariant Contents() == Feed(b0, items[..j], hashKey).body
        invariant slots == Feed(b0, items[..j], hashKey).other
      {
        var target := if tsegs.Some? then Some(Variant(TargetLocale(info), TargetAt(tsegs.value, j))) else None;
        var unit := NewUnit(info, env.docLocale, segs[j], target);
        CategoryStep(b0, info, env, category, segs, tsegs, j);
        if category == "other" {
          slots := slots + [if hashKey(unit.head) in tuhash then None else Some(|tu|)];
        }
        AddTranslationUnit(unit);
      }
      assert items[..|segs|] == items;
    }

    /**
     * The target categories the source lacks, in target order, each added
     * to the "other" units; the first one with more segments than there
     * are "other" units throws.
     */
    method AttachExtraCategories(other: seq<Option<nat>>, srcP: seq<(string, seq<string>)>,
                                 tarP: seq<(string, seq<string>)>, locale: string)
      returns (threw: bool)
      requires Valid() && SlotsIn(other, |tu|)
      modifies this
      ensures Valid() && Header() == old(Header())
      ensures threw <==> Overflows(ExtraSegments(srcP, tarP), |other|)
      ensures Contents() == AttachExtras(old(Contents()), other, ExtraSegments(srcP, tarP), locale, hashKey)
    {
      ghost var b0 := Contents();
      threw := false;
      for c := 0 to |tarP|
        invariant Valid() && Header() == old(Header()) && |tu| == |b0.tu|
        invariant !Overflows(ExtraSegments(srcP, tarP[..c]), |other|)
        invariant Contents() == AttachExtras(b0, other, ExtraSegments(srcP, tarP[..c]), locale, hashKey)
      {
        ExtraStep(b0, other, srcP, tarP, locale, hashKey, c);
        if Get(srcP, tarP[c].0).None? {
          threw := AttachCategoryVariants(other, tarP[c].1, locale);
          if threw {
            ExtraStopped(b0, other, srcP, tarP, locale, hashKey, c + 1);
            return;
          }
        }
      }
      assert tarP[..|tarP|] == tarP;
    }

    /**
     * One extra category: its segment i is added to the i-th "other" unit,
     * if that unit is in the list; a segment past the end of `other` throws.
     */
    method AttachCategoryVariants(other: seq<Option<nat>>, segs: seq<string>, locale: string) returns (threw: bool)
      requires Valid() && SlotsIn(other, |tu|)
      modifies this
      ensures Valid() && Header() == old(Header()) && |tu| == old(|tu|)
      ensures threw <==> |segs| > |other|
      ensures Contents() == AttachCategory(old(Contents()), other, segs, locale, hashKey)
    {
      ghost var b0 := Contents();
      threw := false;
      for i := 0 to |segs|
        invariant Valid() && Header() == old(Header()) && |tu| == |b0.tu| && i <= |other|
        invariant Contents() == AttachCategory(b0, other, segs[..i], locale, hashKey)
      {
        if i == |other| {
          threw := true;
          AttachCategoryCapped(b0, other, segs, locale, hashKey, i);
          return;
        }
        AttachCategoryStep(b0, other, segs, locale, hashKey, i);
        match other[i]
        case None =>
        case Some(k) =>
          tu := tu[k := tu[k].(variants := AddVariant(tu[k].variants, Variant(locale, Some(segs[i]))))];
      }
      assert segs[..|segs|] == segs;
    }

    /**
     * addResource: nothing for a missing resource or one in another source
     * locale; otherwise the branch for the resource's kind.
     */
    method AddResource(res: Option<Resource>, split: Splitter) returns (threw: bool)
      requires Valid()
      modifies this
      ensures Valid() && Header() == old(Header())
      ensures threw <==> Throws(res, old(EnvOf(split)))
      ensures Contents() == IngestResource(old(Contents()), res, old(EnvOf(split)))
    {
      threw := false;
      if res.None? || res.value.info.sourceLocale != Some(sourceLocale) {
        return;
      }
      match res.value
      case StringResource(info, source, target) =>
        AddStringResource(info, source, target, split);
      case ArrayResource(info, sourceArray, targetArray) =>
        threw := AddArrayResource(info, sourceArray, targetArray, split);
      case PluralResource(info, sourcePlurals, targetPlurals) =>
        threw := AddPluralResource(info, sourcePlurals, targetPlurals, split);
    }

    /**
     * parse: the header settings first, then every `<tu>` of the body is
     * read and pushed, without going through the index, until one without
     * attributes stops it with an error.
     */
    method Parse(t: Node) returns (threw: bool)
      requires Valid()
      modifies this
      ensures Valid() && tuhash == old(tuhash)
      ensures Header() == ReadHeader(t, old(Header()))
      ensures tu == old(tu) + ParsedUnits(UnitNodes(t), sourceLocale)
      ensures threw <==> FirstBare(UnitNodes(t)) < |UnitNodes(t)|
    {
      ApplyHeader(HeaderNode(t));
      var nodes := UnitNodes(t);
      var docLocale := sourceLocale;
      ghost var tu0 := tu;
      threw := false;
      var i := 0;
      while i < |nodes|
        invariant 0 <= i <= |nodes| && !threw
        invariant Valid() && tuhash == old(tuhash)
        invariant Header() == ReadHeader(t, old(Header()))
        invariant forall j :: 0 <= j < i ==> nodes[j].attrs != []
        invariant sourceLocale == docLocale
        invariant tu == tu0 + ReadAll(nodes[..i], docLocale)
      {
        if nodes[i].attrs == [] {
          threw := true;
          break;
        }
        var unit := ReadUnit(nodes[i], docLocale);
        AppendUnindexed(Contents(), [unit], hashKey);
        ReadAllTake(nodes, i, docLocale);
        AppendAssoc(tu0, ReadAll(nodes[..i], docLocale), [unit]);
        tu := tu + [unit];
        i := i + 1;
      }
      assert FirstBare(nodes) == i;
      assert tu == old(tu) + ReadAll(nodes[..i], docLocale);
    }

    /**
     * serialize, up to the element tree: the `<tmx>` element built from the
     * header settings and the units; it passes deserialize's version check
     * exactly when the version is rendered as "1.4".
     */
    function Serialize(packageVersion: Option<string>): (t: Node)
      reads this
      ensures VersionGate(Some(One(t))).Accepted? <==> VersionString(version) == "1.4"
      ensures UnitNodes(t) == BodyUnits(tu)
    {
      SerializeGate(Header(), tu, packageVersion);
      UnitNodesOfTree(Header(), tu, packageVersion);
      SerializeTree(Header(), tu, packageVersion)
    }

    /** The header part of parse: each setting the header gives a non-empty value replaces the current one. */
    method ApplyHeader(header: Option<Node>)
      modifies this
      ensures Header() == ReadHeaderFrom(header, old(Header())) && Contents() == old(Contents())
    {
      match header {
        case Some(h) =>
          if h.attrs != [] {
            var tool, toolVersion := Attr(h, "creationtool"), Attr(h, "creationtoolversion");
            var dtype, seg, srclang := Attr(h, "datatype"), Attr(h, "segtype"), Attr(h, "srclang");
            if Truthy(tool) { creationtool := tool; }
            if Truthy(toolVersion) { creationtoolversion := toolVersion; }
            if Truthy(dtype) { dataType := dtype.value; }
            if Truthy(seg) { segtype := seg.value; }
            if Truthy(srclang) { sourceLocale := srclang.value; }
          }
        case None =>
      }
    }

    /**
     * deserialize, from the element tree onwards: after the version check
     * the units are dropped and the parsed ones take their place; the index
     * is kept, so every unit registered before is no longer in the list.
     */
    method Deserialize(doc: Option<Value>) returns (outcome: Outcome)
      requires Valid()
      modifies this
      ensures Valid()
      ensures !VersionGate(doc).Accepted? ==> Contents() == old(Contents()) && Header() == old(Header())
      ensures VersionGate(doc) == Absent ==> outcome == NoDocument
      ensures VersionGate(doc) == Unreadable ==> outcome == Threw
      ensures VersionGate(doc) == WrongVersion ==> outcome == Rejected
      ensures VersionGate(doc).Accepted? ==>
        var root := VersionGate(doc).root;
        var nodes := UnitNodes(root);
        && Header() == ReadHeader(root, old(Header()))
        && tuhash == Detach(old(tuhash))
        && tu == ParsedUnits(nodes, sourceLocale)
        && (outcome == Threw || outcome == Parsed)
        && (outcome == Threw <==> FirstBare(nodes) < |nodes|)
    {
      match VersionGate(doc)
      case Absent => outcome := NoDocument;
      case Unreadable => outcome := Threw;
      case WrongVersion => outcome := Rejected;
      case Accepted(root) =>
        tu := [];
        tuhash := Detach(tuhash);
        var threw := Parse(root);
        outcome := if threw then Threw else Parsed;
    }
  }

  /** Feeding one more item is one more merge-in step. */
  lemma FeedSnoc(b: Body, items: seq<Item>, it: Item, key: KeyFn)
    requires WellFormed(b, key)
    ensures var r0 := Feed(b, items, key);
      Feed(b, items + [it], key) ==
        Run(Insert(r0.body, it.unit, key), if it.isOther then r0.other + [Slot(r0.body, it.unit, key)] else r0.other)
  {
    assert (items + [it])[..|items|] == items;
  }

  /** One more unit of a string resource is one more merge-in step. */
  lemma StringStep(b0: Body, info: ResInfo, source: Option<string>, target: Option<string>, env: Env, i: nat)
    requires WellFormed(b0, env.key) && i < |SegmentString(source, env.docLocale, env.segtype, env.split)|
    ensures var items := StringItems(info, source, target, env);
      var segs := SegmentString(source, env.docLocale, env.segtype, env.split);
      i < |items| &&
      Feed(b0, items[..i + 1], env.key).body ==
        Insert(Feed(b0, items[..i], env.key).body, NewUnit(info, env.docLocale, segs[i], StringTarget(info, target, env, i)), env.key)
  {
    var items := StringItems(info, source, target, env);
    TakeOneMore(items, i);
    FeedSnoc(b0, items[..i], items[i], env.key);
  }

  /** One more unit of an array element is one more merge-in step. */
  lemma ElementStep(b0: Body, info: ResInfo, env: Env, segs: seq<string>, tsegs: Option<seq<string>>, j: nat)
    requires WellFormed(b0, env.key) && j < |segs|
    ensures var items := ElementItems(info, env, segs, tsegs);
      j < |items| &&
      Feed(b0, items[..j + 1], env.key).body ==
        Insert(Feed(b0, items[..j], env.key).body, NewUnit(info, env.docLocale, segs[j], SegmentTarget(info, tsegs, j)), env.key)
  {
    var items := ElementItems(info, env, segs, tsegs);
    TakeOneMore(items, j);
    FeedSnoc(b0, items[..j], items[j], env.key);
  }

  /** One more unit of a plural category is one more merge-in step, remembered when the category is "other". */
  lemma CategoryStep(b0: Body, info: ResInfo, env: Env, category: string, segs: seq<string>, tsegs: Option<seq<string>>,
                     j: nat)
    requires WellFormed(b0, env.key) && j < |segs|
    ensures var items := CategoryItems(info, env, category, segs, tsegs);
      var r0 := Feed(b0, items[..j], env.key);
      var target := if tsegs.Some? then Some(Variant(TargetLocale(info), TargetAt(tsegs.value, j))) else None;
      var unit := NewUnit(info, env.docLocale, segs[j], target);
      Feed(b0, items[..j + 1], env.key) ==
        Run(Insert(r0.body, unit, env.key), if category == "other" then r0.other + [Slot(r0.body, unit, env.key)] else r0.other)
  {
    var items := CategoryItems(info, env, category, segs, tsegs);
    TakeOneMore(items, j);
    FeedSnoc(b0, items[..j], items[j], env.key);
  }

  lemma TakeOneMore<T>(s: seq<T>, i: nat)
    requires i < |s|
    ensures s[..i + 1] == s[..i] + [s[i]]
  {
  }

  lemma FlattenTake<T>(gs: seq<seq<T>>, i: nat)
    requires i < |gs|
    ensures Flatten(gs[..i + 1]) == Flatten(gs[..i]) + gs[i]
  {
    assert gs[..i + 1][..i] == gs[..i];
  }

  lemma AppendTakeOneMore<T>(a: seq<T>, s: seq<T>, i: nat)
    requires i < |s|
    ensures a + s[..i + 1] == (a + s[..i]) + [s[i]]
  {
    TakeOneMore(s, i);
  }

  /** Feeding two lists of items in a row is feeding their concatenation. */
  lemma {:induction false} FeedAppend(b: Body, xs: seq<Item>, ys: seq<Item>, key: KeyFn)
    requires WellFormed(b, key)
    ensures var r1 := Feed(b, xs, key);
      var r2 := Feed(r1.body, ys, key);
      Feed(b, xs + ys, key) == Run(r2.body, r1.other + r2.other)
    decreases |ys|
  {
    if ys == [] {
      assert xs + ys == xs;
    } else {
      var n := |ys| - 1;
      var y := ys[n];
      FeedAppend(b, xs, ys[..n], key);
      FeedAppendStep(b, xs, ys[..n], y, key);
      TakeOneMore(ys, n);
      assert ys[..n + 1] == ys;
      AppendAssoc(xs, ys[..n], [y]);
    }
  }

  lemma FeedAppendStep(b: Body, xs: seq<Item>, ys: seq<Item>, y: Item, key: KeyFn)
    requires WellFormed(b, key)
    requires var r1 := Feed(b, xs, key);
      var r2 := Feed(r1.body, ys, key);
      Feed(b, xs + ys, key) == Run(r2.body, r1.other + r2.other)
    ensures var r1 := Feed(b, xs, key);
      var r2 := Feed(r1.body, ys + [y], key);
      Feed(b, (xs + ys) + [y], key) == Run(r2.body, r1.other + r2.other)
  {
    var r1 := Feed(b, xs, key);
    var mid := Feed(r1.body, ys, key);
    FeedSnoc(b, xs + ys, y, key);
    FeedSnoc(r1.body, ys, y, key);
    AppendAssoc(r1.other, mid.other, [Slot(mid.body, y.unit, key)]);
  }

  lemma AppendAssoc<T>(a: seq<T>, b: seq<T>, c: seq<T>)
    ensures (a + b) + c == a + (b + c)
  {
  }

  /** One more element of an array resource: its units are fed after those of the elements before it. */
  lemma ArrayStep(b0: Body, info: ResInfo, sa: seq<Option<string>>, ta: Option<seq<Option<string>>>, env: Env, i: nat)
    requires WellFormed(b0, env.key) && i < |sa|
    ensures var groups := ArrayGroups(info, sa, ta, env);
      var segs := SegmentAll(sa, env.docLocale, env)[i];
      var items := ElementItems(info, env, segs, ElementTarget(info, ta, env, i));
      && Feed(b0, Flatten(groups[..i + 1]), env.key).body == Feed(Feed(b0, Flatten(groups[..i]), env.key).body, items, env.key).body
      && (segs == [] ==> items == [])
  {
    var groups := ArrayGroups(info, sa, ta, env);
    FlattenTake(groups, i);
    FeedAppend(b0, Flatten(groups[..i]), groups[i], env.key);
  }

  /** The plural branch of addResource in its two steps: the units of the source categories, then the extras. */
  lemma PluralSteps(b: Body, info: ResInfo, sp: Plurals, tp: Option<Plurals>, env: Env)
    requires WellFormed(b, env.key) && info.sourceLocale == Some(env.docLocale)
    ensures var run := Feed(b, Flatten(PluralGroups(info, sp, tp, env)), env.key);
      var srcP := SegmentPlurals(sp, env.docLocale, env);
      var tarP := TargetPlurals(info, tp, env);
      && (PluralThrows(info, sp, tp, env) <==> tarP.Some? && Overflows(ExtraSegments(srcP, tarP.value), |run.other|))
      && IngestResource(b, Some(PluralResource(info, sp, tp)), env) ==
           if tarP.Some? then AttachExtras(run.body, run.other, ExtraSegments(srcP, tarP.value), TargetLocale(info), env.key)
           else run.body
  {
    PluralOtherCount(info, sp, tp, env);
  }

  /** Every element of an array resource segments to nothing. */
  predicate AllBlank(segss: seq<seq<string>>) {
    forall i :: 0 <= i < |segss| ==> segss[i] == []
  }

  lemma ArrayThrowsAt(info: ResInfo, sa: seq<Option<string>>, ta: Option<seq<Option<string>>>, env: Env, i: nat)
    requires AddTarget(info, env.docLocale) && ta.None? && i < |sa| && SegmentAll(sa, env.docLocale, env)[i] != []
    ensures ArrayThrows(info, sa, ta, env)
  {
  }

  lemma ArrayReturns(info: ResInfo, sa: seq<Option<string>>, ta: Option<seq<Option<string>>>, env: Env)
    requires AddTarget(info, env.docLocale) && ta.None? ==> AllBlank(SegmentAll(sa, env.docLocale, env)[..|sa|])
    ensures !ArrayThrows(info, sa, ta, env)
  {
    var segss := SegmentAll(sa, env.docLocale, env);
    assert segss[..|sa|] == segss;
  }

  lemma BlankStep(segss: seq<seq<string>>, i: nat)
    requires i < |segss|
    ensures AllBlank(segss[..i]) && segss[i] == [] ==> AllBlank(segss[..i + 1])
  {
    assert forall j :: 0 <= j < i ==> segss[..i + 1][j] == segss[..i][j];
  }

  /** One more target category: attached when the source lacks it, skipped otherwise. */
  lemma ExtraStep(b0: Body, other: seq<Option<nat>>, srcP: seq<(string, seq<string>)>,
                  tarP: seq<(string, seq<string>)>, locale: string, key: KeyFn, c: nat)
    requires WellFormed(b0, key) && SlotsIn(other, |b0.tu|) && c < |tarP|
    requires !Overflows(ExtraSegments(srcP, tarP[..c]), |other|)
    ensures Get(srcP, tarP[c].0).Some? ==>
      && ExtraSegments(srcP, tarP[..c + 1]) == ExtraSegments(srcP, tarP[..c])
      && AttachExtras(b0, other, ExtraSegments(srcP, tarP[..c + 1]), locale, key) ==
           AttachExtras(b0, other, ExtraSegments(srcP, tarP[..c]), locale, key)
    ensures Get(srcP, tarP[c].0).None? ==>
      && ExtraSegments(srcP, tarP[..c + 1]) == ExtraSegments(srcP, tarP[..c]) + [tarP[c].1]
      && AttachExtras(b0, other, ExtraSegments(srcP, tarP[..c + 1]), locale, key) ==
           AttachCategory(AttachExtras(b0, other, ExtraSegments(srcP, tarP[..c]), locale, key), other, tarP[c].1, locale, key)
  {
    var done := ExtraSegments(srcP, tarP[..c]);
    var next := ExtraSegments(srcP, tarP[..c + 1]);
    assert tarP[..c + 1][..c] == tarP[..c];
    if Get(srcP, tarP[c].0).None? {
      assert next == done + [tarP[c].1];
      assert next[..|done|] == done;
    }
  }

  /**
   * Once the extra categories of a prefix of the target categories run
   * past the end of `other`, the rest change nothing.
   */
  lemma ExtraStopped(b0: Body, other: seq<Option<nat>>, srcP: seq<(string, seq<string>)>,
                     tarP: seq<(string, seq<string>)>, locale: string, key: KeyFn, m: nat)
    requires WellFormed(b0, key) && SlotsIn(other, |b0.tu|) && m <= |tarP|
    requires Overflows(ExtraSegments(srcP, tarP[..m]), |other|)
    ensures Overflows(ExtraSegments(srcP, tarP), |other|)
    ensures AttachExtras(b0, other, ExtraSegments(srcP, tarP), locale, key) ==
      AttachExtras(b0, other, ExtraSegments(srcP, tarP[..m]), locale, key)
  {
    var e := ExtraSegments(srcP, tarP[..m]);
    var all := ExtraSegments(srcP, tarP);
    ExtraSegmentsPrefix(srcP, tarP, m);
    var c :| 0 <= c < |e| && |e[c]| > |other|;
    assert all[c] == e[c];
    AttachExtrasStopped(b0, other, all, locale, key, |e|);
  }

  /** The extra categories of a prefix of the target categories come first among all of them. */
  lemma {:induction false} ExtraSegmentsPrefix(srcP: seq<(string, seq<string>)>, tarP: seq<(string, seq<string>)>, m: nat)
    requires m <= |tarP|
    ensures var e := ExtraSegments(srcP, tarP[..m]);
      var all := ExtraSegments(srcP, tarP);
      |e| <= |all| && all[..|e|] == e
    decreases |tarP|
  {
    if m < |tarP| {
      var n := |tarP| - 1;
      assert tarP[..n][..m] == tarP[..m];
      ExtraSegmentsPrefix(srcP, tarP[..n], m);
    } else {
      assert tarP[..m] == tarP;
    }
  }

  /**
   * A document built without options writes version "1.4", segment type
   * "paragraph", source locale "en-US", data type "unknown" and the
   * creation tool "loctool".
   */
  lemma DefaultHeader(tu: seq<Unit>, packageVersion: Option<string>)
    ensures var t := SerializeTree(Initial(None), tu, packageVersion);
      var h := HeaderOf(t);
      && Attr(t, "version") == Some("1.4")
      && Attr(h, "segtype") == Some("paragraph")
      && Attr(h, "srclang") == Some("en-US")
      && Attr(h, "datatype") == Some("unknown")
      && Attr(h, "creationtool") == Some("loctool")
      && Attr(h, "o-tmf") == None
  {
    SerializeHeader(Defaults, tu, packageVersion);
    VersionStringExamples();
  }

  /**
   * After a document is deserialized, the list and the index agree only
   * when nothing was parsed, and adding a unit whose key was registered
   * before changes nothing.
   */
  lemma ReloadedIndex(tu: seq<Unit>, tuhash: map<string, Entry>, u: Unit, key: KeyFn)
    requires key(u.head) in tuhash
    ensures Indexed(Body(tu, Detach(tuhash)), key) <==> tu == []
    ensures Insert(Body(tu, Detach(tuhash)), u, key) == Body(tu, Detach(tuhash))
  {
    DetachedIndexed(tu, tuhash, key);
    InsertExisting(Body(tu, Detach(tuhash)), u, key);
  }
}
