/**
 * The TMX document as a compact element tree: building the tree from
 * the document state (serialize, serializeTranslationUnit,
 * serializeTranslationVariant) and reading header settings and units
 * back from it (parse).
 */
module Codec {
  import opened Wrappers
  import opened Units
  import opened XmlTree
  import opened Helpers

  /** The header state of a document. */
  datatype Settings = Settings(
    version: string,
    properties: Props,
    sourceLocale: string,
    segtype: string,
    dataType: string,
    creationtool: Option<string>,
    creationtoolversion: Option<string>)

  /** JavaScript `a || b` on possibly-undefined strings. */
  function Or(a: Option<string>, b: Option<string>): Option<string> {
    if Truthy(a) then a else b
  }

  // ------------------------------------------------------------ serialize

  /** An element holding only text; an unset text is an element without text. */
  function TextNode(s: Option<string>): Node {
    Node([], s, [])
  }

  /** serializeTranslationVariant: the locale as `xml:lang`, the string as the `seg` text. */
  function VariantNode(v: Variant): Node {
    Node([("xml:lang", v.locale)], None, [("seg", One(TextNode(v.text)))])
  }

  function VariantNodes(vs: seq<Variant>): (ns: seq<Node>)
    ensures |ns| == |vs|
  {
    seq(|vs|, i requires 0 <= i < |vs| => VariantNode(vs[i]))
  }

  /** Properties as `<prop type="key">value</prop>` elements, in key order. */
  function PropNodes(p: Props): (ns: seq<Node>)
    ensures |ns| == |p|
  {
    seq(|p|, i requires 0 <= i < |p| => Node([("type", p[i].0)], Some(p[i].1), []))
  }

  /** serializeTranslationUnit for a unit worth writing out. */
  function UnitElement(u: Unit): Node {
    Node(if u.head.sourceLocale.Some? then [("srclang", u.head.sourceLocale.value)] else [],
         None,
         (if u.head.properties == [] then [] else [("prop", Many(PropNodes(u.head.properties)))])
           + [("tuv", Many(VariantNodes(u.variants)))])
  }

  /** serializeTranslationUnit: nothing for a unit with fewer than two variants. */
  function SerializeUnit(u: Unit): (r: Option<Node>)
    ensures r.Some? <==> |u.variants| >= 2
  {
    if |u.variants| < 2 then None else Some(UnitElement(u))
  }

  /**
   * A written unit: `srclang` from the unit's source locale, one `<prop>`
   * per property with the key as `type` and the value as text, and one
   * `<tuv>` per variant, in stored order, with the locale as `xml:lang`
   * and the text as the `<seg>` text.
   */
  lemma UnitElementShape(u: Unit)
    ensures var n := UnitElement(u);
      && Attr(n, "srclang") == u.head.sourceLocale
      && var vs := VariantNodes(u.variants);
      && (forall i :: 0 <= i < |vs| ==>
            Attr(vs[i], "xml:lang") == Some(u.variants[i].locale) && SegText(vs[i]) == u.variants[i].text)
      && var ps := PropNodes(u.head.properties);
      && (forall i :: 0 <= i < |ps| ==>
            Attr(ps[i], "type") == Some(u.head.properties[i].0) && ps[i].text == Some(u.head.properties[i].1))
  {
    var vs := VariantNodes(u.variants);
    forall i | 0 <= i < |vs|
      ensures SegText(vs[i]) == u.variants[i].text
    {
      assert Kid(vs[i], "seg") == Some(One(TextNode(u.variants[i].text)));
    }
  }

  /** The units serialize keeps: those with more than one variant, in order. */
  function Kept(tu: seq<Unit>): (r: seq<Unit>)
    ensures |r| <= |tu|
    ensures forall u :: u in r <==> u in tu && |u.variants| > 1
    decreases |tu|
  {
    if tu == [] then []
    else
      var init := tu[..|tu| - 1];
      var last := tu[|tu| - 1];
      assert forall u :: u in tu <==> u in init || u == last;
      Kept(init) + (if |last.variants| > 1 then [last] else [])
  }

  /** Every unit has more than one variant. */
  predicate AllKept(tu: seq<Unit>) {
    forall i :: 0 <= i < |tu| ==> |tu[i].variants| > 1
  }

  lemma AllKeptSnoc(tu: seq<Unit>)
    requires tu != []
    ensures AllKept(tu) <==> AllKept(tu[..|tu| - 1]) && |tu[|tu| - 1].variants| > 1
  {
    var n := |tu| - 1;
    if AllKept(tu[..n]) && |tu[n].variants| > 1 {
      forall i | 0 <= i < |tu|
        ensures |tu[i].variants| > 1
      {
        if i < n {
          assert tu[i] == tu[..n][i];
        }
      }
    }
  }

  lemma KeptSnoc(tu: seq<Unit>)
    requires tu != []
    ensures |Kept(tu)| == |Kept(tu[..|tu| - 1])| + (if |tu[|tu| - 1].variants| > 1 then 1 else 0)
  {
  }

  /** Every unit is written out exactly when every unit has more than one variant. */
  lemma {:induction false} KeptAll(tu: seq<Unit>)
    ensures |Kept(tu)| == |tu| <==> AllKept(tu)
    decreases |tu|
  {
    if tu != [] {
      var n := |tu| - 1;
      KeptAll(tu[..n]);
      KeptSnoc(tu);
      AllKeptSnoc(tu);
      assert |Kept(tu[..n])| <= n;
    }
  }

  /** The `<tu>` elements of the body. */
  function BodyUnits(tu: seq<Unit>): (ns: seq<Node>)
    ensures |ns| == |Kept(tu)|
  {
    var kept := Kept(tu);
    seq(|kept|, i requires 0 <= i < |kept| => UnitElement(kept[i]))
  }

  /** Header properties: every property except the two tool settings, in key order. */
  function HeaderProps(p: Props): (r: Props)
    ensures forall kv :: kv in r <==> kv in p && kv.0 != "creationtool" && kv.0 != "creationtoolversion"
    decreases |p|
  {
    if p == [] then []
    else
      var init := p[..|p| - 1];
      var last := p[|p| - 1];
      assert forall kv :: kv in p <==> kv in init || kv == last;
      HeaderProps(init) + (if last.0 != "creationtool" && last.0 != "creationtoolversion" then [last] else [])
  }

  /** Units kept from a concatenation are the units kept from each part, in order. */
  lemma {:induction false} KeptAppend(a: seq<Unit>, b: seq<Unit>)
    ensures Kept(a + b) == Kept(a) + Kept(b)
    decreases |b|
  {
    if b == [] {
      assert a + b == a;
    } else {
      var n := |b| - 1;
      var tail := if |b[n].variants| > 1 then [b[n]] else [];
      assert (a + b)[..|a + b| - 1] == a + b[..n];
      assert (a + b)[|a + b| - 1] == b[n];
      assert Kept(a + b) == Kept(a + b[..n]) + tail;
      assert Kept(b) == Kept(b[..n]) + tail;
      KeptAppend(a, b[..n]);
      Regroup(Kept(a), Kept(b[..n]), tail);
    }
  }

  lemma Regroup<T>(x: seq<T>, y: seq<T>, z: seq<T>)
    ensures (x + y) + z == x + (y + z)
  {
  }

  /** A single unit is kept exactly when it has more than one variant. */
  lemma KeptOne(u: Unit)
    ensures Kept([u]) == if |u.variants| > 1 then [u] else []
  {
    assert [u][..0] == [];
  }

  /** Header properties of a concatenation are those of each part, in order. */
  lemma {:induction false} HeaderPropsAppend(a: Props, b: Props)
    ensures HeaderProps(a + b) == HeaderProps(a) + HeaderProps(b)
    decreases |b|
  {
    if b == [] {
      assert a + b == a;
    } else {
      var n := |b| - 1;
      assert (a + b)[..|a + b| - 1] == a + b[..n];
      assert (a + b)[|a + b| - 1] == b[n];
      HeaderPropsAppend(a, b[..n]);
    }
  }

  /** A single property is written to the header exactly when it is not one of the two tool settings. */
  lemma HeaderPropsOne(kv: (string, string))
    ensures HeaderProps([kv]) == if kv.0 != "creationtool" && kv.0 != "creationtoolversion" then [kv] else []
  {
    assert [kv][..0] == [];
  }

  /** The creation tool named in the header: the setting, else the property, else "loctool". */
  function Tool(s: Settings): string {
    Or(s.creationtool, Or(Get(s.properties, "creationtool"), Some("loctool"))).value
  }

  /** The tool version: the setting, else the property, else the package version (possibly unknown). */
  function ToolVersion(s: Settings, packageVersion: Option<string>): Option<string> {
    Or(s.creationtoolversion, Or(Get(s.properties, "creationtoolversion"), packageVersion))
  }

  /** The `<header>` attributes, in the order serialize writes them; an undefined value is not written. */
  function HeaderAttrs(s: Settings, packageVersion: Option<string>): seq<(string, string)> {
    var tv := ToolVersion(s, packageVersion);
    [("segtype", s.segtype), ("creationtool", Tool(s))]
      + (if tv.Some? then [("creationtoolversion", tv.value)] else [])
      + LateAttrs(s)
  }

  /** The header attributes written after the tool version. */
  function LateAttrs(s: Settings): seq<(string, string)> {
    var tmf := Get(s.properties, "originalFormat");
    [("adminlang", "en-US"), ("srclang", s.sourceLocale), ("datatype", s.dataType)]
      + (if Truthy(tmf) then [("o-tmf", tmf.value)] else [])
  }

  function HeaderElement(s: Settings, packageVersion: Option<string>): Node {
    var props := HeaderProps(s.properties);
    Node(HeaderAttrs(s, packageVersion), None, if props == [] then [] else [("prop", Many(PropNodes(props)))])
  }

  /** serialize, up to the compact tree handed to the XML writer: the `<tmx>` element. */
  function SerializeTree(s: Settings, tu: seq<Unit>, packageVersion: Option<string>): Node {
    Node([("version", VersionString(s.version))], None,
         [("header", One(HeaderElement(s, packageVersion))),
          ("body", One(Node([], None, [("tu", Many(BodyUnits(tu)))])))])
  }

  function HeaderOf(t: Node): Node {
    match Single(Kid(t, "header"))
    case Some(h) => h
    case None => Node([], None, [])
  }

  function BodyOf(t: Node): Node {
    match Single(Kid(t, "body"))
    case Some(b) => b
    case None => Node([], None, [])
  }

  /**
   * The body lists exactly the units with more than one variant, in
   * document order, each as its `<tu>` element.
   */
  lemma SerializeBody(s: Settings, tu: seq<Unit>, packageVersion: Option<string>)
    ensures var t := SerializeTree(s, tu, packageVersion);
      && Kid(BodyOf(t), "tu").Some?
      && var units := MakeArray(Kid(BodyOf(t), "tu").value);
      && |units| == |Kept(tu)| <= |tu|
      && (forall i :: 0 <= i < |units| ==> Some(units[i]) == SerializeUnit(Kept(tu)[i]))
      && (|units| == |tu| <==> forall i :: 0 <= i < |tu| ==> |tu[i].variants| > 1)
  {
    var t := SerializeTree(s, tu, packageVersion);
    var body := Node([], None, [("tu", Many(BodyUnits(tu)))]);
    assert t.kids[1..] == [("body", One(body))];
    assert t.kids[0].0 != "body";
    assert Get(t.kids, "body") == Get(t.kids[1..], "body");
    assert Kid(t, "body") == Some(One(body));
    assert BodyOf(t) == body;
    assert Kid(body, "tu") == Some(Many(BodyUnits(tu)));
    KeptAll(tu);
  }

  /** The header element of a serialized document is the one built from the settings. */
  lemma HeaderOfTree(s: Settings, tu: seq<Unit>, packageVersion: Option<string>)
    ensures HeaderOf(SerializeTree(s, tu, packageVersion)) == HeaderElement(s, packageVersion)
  {
    var t := SerializeTree(s, tu, packageVersion);
    assert t.kids[0].0 == "header";
  }

  /** Reading a key from a concatenation: the first part wins. */
  lemma {:induction false} GetAppend<V>(p: seq<(string, V)>, q: seq<(string, V)>, k: string)
    ensures Get(p + q, k) == if Get(p, k).Some? then Get(p, k) else Get(q, k)
    decreases |p|
  {
    if p != [] {
      assert (p + q)[0] == p[0];
      assert (p + q)[1..] == p[1..] + q;
      GetAppend(p[1..], q, k);
    } else {
      assert p + q == q;
    }
  }

  /** The header attributes that do not depend on optional settings. */
  lemma HeaderAttrsFixed(s: Settings, packageVersion: Option<string>)
    ensures var a := HeaderAttrs(s, packageVersion);
      && Get(a, "segtype") == Some(s.segtype)
      && Get(a, "creationtool") == Some(Tool(s))
      && Get(a, "creationtoolversion") == ToolVersion(s, packageVersion)
  {
    var tv := ToolVersion(s, packageVersion);
    var front := [("segtype", s.segtype), ("creationtool", Tool(s))];
    var mid := if tv.Some? then [("creationtoolversion", tv.value)] else [];
    var late := LateAttrs(s);
    assert HeaderAttrs(s, packageVersion) == front + (mid + late);
    GetAppend(front, mid + late, "creationtoolversion");
    GetAppend(mid, late, "creationtoolversion");
    LateAttrsLookup(s);
  }

  /** Keys after the tool version are read from the late attributes. */
  lemma HeaderAttrsLate(s: Settings, packageVersion: Option<string>, k: string)
    requires k != "segtype" && k != "creationtool" && k != "creationtoolversion"
    ensures Get(HeaderAttrs(s, packageVersion), k) == Get(LateAttrs(s), k)
  {
    var tv := ToolVersion(s, packageVersion);
    var front := [("segtype", s.segtype), ("creationtool", Tool(s))];
    var mid := if tv.Some? then [("creationtoolversion", tv.value)] else [];
    var late := LateAttrs(s);
    assert HeaderAttrs(s, packageVersion) == front + (mid + late);
    GetAppend(front, mid + late, k);
    GetAppend(mid, late, k);
  }

  /** The late attributes: adminlang, srclang, datatype, and o-tmf only when set. */
  lemma LateAttrsLookup(s: Settings)
    ensures var late := LateAttrs(s);
      var tmf := Get(s.properties, "originalFormat");
      && Get(late, "adminlang") == Some("en-US")
      && Get(late, "srclang") == Some(s.sourceLocale)
      && Get(late, "datatype") == Some(s.dataType)
      && (Truthy(tmf) ==> Get(late, "o-tmf") == tmf)
      && (!Truthy(tmf) ==> Get(late, "o-tmf") == None)
      && Get(late, "creationtoolversion") == None
  {
    var late := LateAttrs(s);
    var tmf := Get(s.properties, "originalFormat");
    var fixed := [("adminlang", "en-US"), ("srclang", s.sourceLocale), ("datatype", s.dataType)];
    assert UniqueKeys(fixed);
    GetAt(fixed, 0);
    GetAt(fixed, 1);
    GetAt(fixed, 2);
    GetSkip(fixed, 3, "o-tmf");
    GetSkip(fixed, 3, "creationtoolversion");
    if Truthy(tmf) {
      var tail := [("o-tmf", tmf.value)];
      assert late == fixed + tail;
      GetAppend(fixed, tail, "adminlang");
      GetAppend(fixed, tail, "srclang");
      GetAppend(fixed, tail, "datatype");
      GetAppend(fixed, tail, "o-tmf");
      GetAppend(fixed, tail, "creationtoolversion");
      GetSkip(tail, 1, "creationtoolversion");
    } else {
      assert late == fixed;
    }
  }

  /**
   * The header's attributes: the version string on the root; segtype,
   * creation tool and version, adminlang, srclang and datatype as set;
   * `o-tmf` exactly when the `originalFormat` property is set.
   */
  lemma SerializeHeader(s: Settings, tu: seq<Unit>, packageVersion: Option<string>)
    ensures var t := SerializeTree(s, tu, packageVersion);
      var h := HeaderOf(t);
      var tmf := Get(s.properties, "originalFormat");
      && Attr(t, "version") == Some(VersionString(s.version))
      && Attr(h, "segtype") == Some(s.segtype)
      && Attr(h, "creationtool") == Some(Tool(s))
      && Attr(h, "creationtoolversion") == ToolVersion(s, packageVersion)
      && Attr(h, "adminlang") == Some("en-US")
      && Attr(h, "srclang") == Some(s.sourceLocale)
      && Attr(h, "datatype") == Some(s.dataType)
      && (Attr(h, "o-tmf").Some? <==> Truthy(tmf))
      && (Truthy(tmf) ==> Attr(h, "o-tmf") == tmf)
  {
    HeaderOfTree(s, tu, packageVersion);
    HeaderAttrsFixed(s, packageVersion);
    HeaderAttrsLate(s, packageVersion, "adminlang");
    HeaderAttrsLate(s, packageVersion, "srclang");
    HeaderAttrsLate(s, packageVersion, "datatype");
    HeaderAttrsLate(s, packageVersion, "o-tmf");
    LateAttrsLookup(s);
  }

  /** Reading a key past a prefix that lacks it. */
  lemma {:induction false} GetSkip<V>(p: seq<(string, V)>, n: nat, k: string)
    requires n <= |p|
    requires forall i :: 0 <= i < n ==> p[i].0 != k
    ensures Get(p, k) == Get(p[n..], k)
    decreases n
  {
    if n > 0 {
      assert p[1..][n - 1..] == p[n..];
      GetSkip(p[1..], n - 1, k);
    }
  }

  /**
   * The header's `<prop>` elements carry every property but the two
   * tool settings, keyed by the `type` attribute, in key order.
   */
  lemma SerializeHeaderProps(s: Settings, tu: seq<Unit>, packageVersion: Option<string>)
    ensures var h := HeaderOf(SerializeTree(s, tu, packageVersion));
      var props := HeaderProps(s.properties);
      && (Kid(h, "prop").Some? <==> props != [])
      && (props != [] ==> MakeArray(Kid(h, "prop").value) == PropNodes(props))
      && forall i :: 0 <= i < |props| ==>
           Attr(PropNodes(props)[i], "type") == Some(props[i].0) && PropNodes(props)[i].text == Some(props[i].1)
  {
  }

  // ---------------------------------------------------------------- parse

  /** The outcome of the version check on the `<tmx>` element. */
  datatype Gate =
    | Absent              // the document has no `<tmx>` element: nothing happens
    | Unreadable          // `<tmx>` without attributes: the error message itself fails
    | WrongVersion        // a version other than "1.4": logged, nothing parsed
    | Accepted(root: Node)

  /** deserialize's check of the `<tmx>` element before anything is cleared or parsed. */
  function VersionGate(doc: Option<Value>): (g: Gate)
    ensures g.Accepted? <==> doc.Some? && doc.value.One? && Attr(doc.value.node, "version") == Some("1.4")
    ensures g.Accepted? ==> g.root == doc.value.node
  {
    match doc
    case None => Absent
    case Some(Many(_)) => Unreadable
    case Some(One(t)) =>
      if t.attrs == [] then Unreadable
      else if Attr(t, "version") != Some("1.4") then WrongVersion
      else Accepted(t)
  }

  /**
   * The header settings parse reads back: creation tool and version,
   * datatype, segment type and source locale, each only when the header
   * gives it a non-empty value.  Header properties and the version are
   * not read.
   */
  function ReadHeader(t: Node, s: Settings): (r: Settings)
    ensures r.properties == s.properties && r.version == s.version
  {
    ReadHeaderFrom(HeaderNode(t), s)
  }

  /** The `<header>` element of a `<tmx>` element, when it has exactly one. */
  function HeaderNode(t: Node): Option<Node> {
    Single(Kid(t, "header"))
  }

  /** The settings read from a `<header>` element, if there is one. */
  function ReadHeaderFrom(header: Option<Node>, s: Settings): (r: Settings)
    ensures r.properties == s.properties && r.version == s.version
  {
    match header
    case None => s
    case Some(h) =>
      s.(creationtool := if Truthy(Attr(h, "creationtool")) then Attr(h, "creationtool") else s.creationtool,
         creationtoolversion := if Truthy(Attr(h, "creationtoolversion")) then Attr(h, "creationtoolversion") else s.creationtoolversion,
         dataType := if Truthy(Attr(h, "datatype")) then Attr(h, "datatype").value else s.dataType,
         segtype := if Truthy(Attr(h, "segtype")) then Attr(h, "segtype").value else s.segtype,
         sourceLocale := if Truthy(Attr(h, "srclang")) then Attr(h, "srclang").value else s.sourceLocale)
  }

  /** The `<tu>` elements of the body, if the body has any. */
  function UnitNodes(t: Node): seq<Node> {
    match Single(Kid(t, "body"))
    case None => []
    case Some(b) =>
      match Kid(b, "tu")
      case None => []
      case Some(v) => MakeArray(v)
  }

  /** The key a `<prop>` element is stored under: its `name` attribute, as a JavaScript object key. */
  function NameOf(p: Node): string {
    match Attr(p, "name")
    case Some(n) => n
    case None => "undefined"
  }

  /** A `<prop>` element with attributes, stored under `k`; one without attributes is skipped. */
  predicate Named(p: Node, k: string) {
    p.attrs != [] && NameOf(p) == k
  }

  /** The `i`-th element is the last one stored under `k`. */
  predicate LastNamed(ps: seq<Node>, i: int, k: string) {
    0 <= i < |ps| && Named(ps[i], k) && forall j :: i < j < |ps| ==> !Named(ps[j], k)
  }

  /** The property object built from a unit's `<prop>` elements, in element order. */
  function PropEntries(ps: seq<Node>): seq<(string, Option<string>)>
    decreases |ps|
  {
    if ps == [] then []
    else
      var last := ps[|ps| - 1];
      var r0 := PropEntries(ps[..|ps| - 1]);
      if last.attrs != [] then Put(r0, NameOf(last), last.text) else r0
  }

  /** Each key holds the text of the last `<prop>` element stored under it. */
  lemma {:induction false} PropEntriesLast(ps: seq<Node>, i: int, k: string)
    requires LastNamed(ps, i, k)
    ensures Get(PropEntries(ps), k) == Some(ps[i].text)
    decreases |ps|
  {
    var n := |ps| - 1;
    var init := ps[..n];
    var r0 := PropEntries(init);
    if i < n {
      assert !Named(ps[n], k);
      assert forall j :: i < j < |init| ==> init[j] == ps[j];
      assert LastNamed(init, i, k);
      PropEntriesLast(init, i, k);
      if ps[n].attrs != [] {
        assert PropEntries(ps) == Put(r0, NameOf(ps[n]), ps[n].text);
      }
    }
  }

  /** A key that no `<prop>` element names is absent. */
  lemma {:induction false} PropEntriesAbsent(ps: seq<Node>, k: string)
    requires forall i :: 0 <= i < |ps| ==> !Named(ps[i], k)
    ensures Get(PropEntries(ps), k) == None
    decreases |ps|
  {
    if ps != [] {
      var n := |ps| - 1;
      var init := ps[..n];
      assert !Named(ps[n], k);
      assert forall i :: 0 <= i < |init| ==> init[i] == ps[i];
      PropEntriesAbsent(init, k);
      if ps[n].attrs != [] {
        assert PropEntries(ps) == Put(PropEntries(init), NameOf(ps[n]), ps[n].text);
      }
    }
  }

  /** A `<prop>` with a `type` attribute but no `name` is stored under the key "undefined". */
  lemma PropWithoutName(k: string, v: string)
    ensures PropEntries([Node([("type", k)], Some(v), [])]) == [("undefined", Some(v))]
  {
    var p := Node([("type", k)], Some(v), []);
    assert [p][..0] == [];
    assert Attr(p, "name") == None by { assert Get(p.attrs[1..], "name") == None; }
  }

  /**
   * The locale of a `<tuv>`: its `lang` attribute when non-empty, otherwise
   * its `xml:lang` attribute when non-empty.
   */
  function VariantLocale(v: Node): (r: Option<string>)
    ensures Truthy(Attr(v, "lang")) ==> r == Attr(v, "lang")
    ensures !Truthy(Attr(v, "lang")) ==> (Truthy(r) <==> Truthy(Attr(v, "xml:lang")))
    ensures Truthy(r) ==> r == Attr(v, "lang") || r == Attr(v, "xml:lang")
  {
    if Truthy(Attr(v, "lang")) then Attr(v, "lang")
    else if Truthy(Attr(v, "xml:lang")) then Attr(v, "xml:lang")
    else None
  }

  /** The text of a `<tuv>`'s single `<seg>`; several `<seg>` elements yield none. */
  function SegText(v: Node): Option<string> {
    match Single(Kid(v, "seg"))
    case Some(seg) => seg.text
    case None => None
  }

  /** The variant a `<tuv>` contributes: only one with a non-empty locale and a non-empty text. */
  function ReadVariant(v: Node): (r: Option<Variant>)
    ensures r.Some? <==> Truthy(VariantLocale(v)) && Truthy(SegText(v))
    ensures r.Some? ==> r.value.locale != "" && Truthy(r.value.text)
  {
    var loc := VariantLocale(v);
    var text := SegText(v);
    if Truthy(loc) && Truthy(text) then Some(Variant(loc.value, text)) else None
  }

  /** The variants a list of `<tuv>` elements contributes, in order. */
  function KeptVariants(tuvs: seq<Node>): (ks: seq<Variant>)
    ensures |ks| <= |tuvs|
    ensures forall x :: x in ks ==> Truthy(x.text)
    decreases |tuvs|
  {
    if tuvs == [] then []
    else
      var n := |tuvs| - 1;
      var ks0 := KeptVariants(tuvs[..n]);
      match ReadVariant(tuvs[n])
      case None => ks0
      case Some(x) => ks0 + [x]
  }

  /**
   * One variant read into a unit: it is added (an exact duplicate is
   * skipped), and one in the document's source locale becomes the
   * unit's source.
   */
  function TakeVariant(u: Unit, x: Variant, docLocale: string): Unit {
    var u1 := u.(variants := AddVariant(u.variants, x));
    if x.locale == docLocale then u1.(head := u1.head.(source := x.text, sourceLocale := Some(x.locale)))
    else u1
  }

  /** Reading a unit's `<tuv>` elements one by one. */
  function ReadVariants(u: Unit, tuvs: seq<Node>, docLocale: string): Unit
    decreases |tuvs|
  {
    if tuvs == [] then u
    else
      var n := |tuvs| - 1;
      var u0 := ReadVariants(u, tuvs[..n], docLocale);
      match ReadVariant(tuvs[n])
      case None => u0
      case Some(x) => TakeVariant(u0, x, docLocale)
  }

  /** The last variant in `ks` whose locale is `loc` sits at `i`. */
  predicate LastIn(ks: seq<Variant>, i: int, loc: string) {
    0 <= i < |ks| && ks[i].locale == loc && forall j :: i < j < |ks| ==> ks[j].locale != loc
  }

  /** Reading variants adds the kept variants with addVariants and leaves the rest of the head alone. */
  lemma {:induction false} ReadVariantsAdds(u: Unit, tuvs: seq<Node>, docLocale: string)
    ensures var r := ReadVariants(u, tuvs, docLocale);
      && r.variants == AddVariants(u.variants, KeptVariants(tuvs))
      && r.head.properties == u.head.properties
      && r.head.comment == u.head.comment
      && r.head.dataType == u.head.dataType
    decreases |tuvs|
  {
    if tuvs != [] {
      var n := |tuvs| - 1;
      ReadVariantsAdds(u, tuvs[..n], docLocale);
      match ReadVariant(tuvs[n])
      case None =>
      case Some(x) =>
        var ks := KeptVariants(tuvs);
        assert ks[..|ks| - 1] == KeptVariants(tuvs[..n]);
    }
  }

  /** Without a kept variant in the document locale, the unit's source and source locale stay as they were. */
  lemma {:induction false} ReadVariantsNoSource(u: Unit, tuvs: seq<Node>, docLocale: string)
    requires forall x :: x in KeptVariants(tuvs) ==> x.locale != docLocale
    ensures var r := ReadVariants(u, tuvs, docLocale);
      r.head.source == u.head.source && r.head.sourceLocale == u.head.sourceLocale
    decreases |tuvs|
  {
    if tuvs != [] {
      var n := |tuvs| - 1;
      var ks0 := KeptVariants(tuvs[..n]);
      match ReadVariant(tuvs[n])
      case None =>
        assert KeptVariants(tuvs) == ks0;
        ReadVariantsNoSource(u, tuvs[..n], docLocale);
      case Some(x) =>
        var ks := ks0 + [x];
        assert KeptVariants(tuvs) == ks;
        assert ks[|ks0|] == x;
        assert x.locale != docLocale;
        assert forall y :: y in ks0 ==> y in ks;
        ReadVariantsNoSource(u, tuvs[..n], docLocale);
    }
  }

  /** The source is the text of the last kept variant in the document locale. */
  lemma {:induction false} ReadVariantsSource(u: Unit, tuvs: seq<Node>, docLocale: string, i: int)
    requires LastIn(KeptVariants(tuvs), i, docLocale)
    ensures var r := ReadVariants(u, tuvs, docLocale);
      r.head.source == KeptVariants(tuvs)[i].text && r.head.sourceLocale == Some(docLocale)
    decreases |tuvs|
  {
    var n := |tuvs| - 1;
    var ks0 := KeptVariants(tuvs[..n]);
    match ReadVariant(tuvs[n])
    case None =>
      ReadVariantsSource(u, tuvs[..n], docLocale, i);
    case Some(x) =>
      var ks := ks0 + [x];
      assert KeptVariants(tuvs) == ks;
      if i < |ks0| {
        assert ks[|ks0|] == x;
        assert forall j :: i < j < |ks0| ==> ks0[j] == ks[j];
        assert LastIn(ks0, i, docLocale);
        ReadVariantsSource(u, tuvs[..n], docLocale, i);
      }
  }

  /** A parsed unit before its `<tuv>` elements are read: properties and comment, nothing else. */
  function UnitStart(n: Node): Unit {
    var props := match Kid(n, "prop")
      case Some(v) => AddProperties([], PropEntries(MakeArray(v)))
      case None => [];
    var comment := match Single(Kid(n, "note"))
      case Some(m) => m.text
      case None => None;
    Unit(Head(None, None, None, props, comment), [])
  }

  function TuvNodes(n: Node): seq<Node> {
    match Kid(n, "tuv")
    case Some(v) => MakeArray(v)
    case None => []
  }

  /**
   * The unit parse builds from a `<tu>` element that has attributes; its
   * `srclang` attribute is never read.
   */
  function UnitOf(n: Node, docLocale: string): Unit {
    ReadVariants(UnitStart(n), TuvNodes(n), docLocale)
  }

  /** The unit's source locale is never taken from the `<tu>`: it is the document locale or unset. */
  lemma UnitSourceLocale(n: Node, docLocale: string)
    ensures var r := UnitOf(n, docLocale);
      && (r.head.sourceLocale.Some? ==> r.head.sourceLocale == Some(docLocale) && r.head.source.Some?)
      && (r.head.source.Some? <==> exists x :: x in r.variants && x.locale == docLocale)
  {
    var ks := KeptVariants(TuvNodes(n));
    ReadVariantsAdds(UnitStart(n), TuvNodes(n), docLocale);
    if exists x :: x in ks && x.locale == docLocale {
      var i := LastIndexIn(ks, docLocale);
      ReadVariantsSource(UnitStart(n), TuvNodes(n), docLocale, i);
      assert ks[i] in ks;
      assert Truthy(ks[i].text);
    } else {
      ReadVariantsNoSource(UnitStart(n), TuvNodes(n), docLocale);
    }
  }

  /** parse's loop over a unit's `<prop>` elements, writing each into the property object. */
  method CollectProps(ps: seq<Node>) returns (entries: seq<(string, Option<string>)>)
    ensures entries == PropEntries(ps)
  {
    entries := [];
    for i := 0 to |ps|
      invariant entries == PropEntries(ps[..i])
    {
      assert ps[..i + 1][..i] == ps[..i];
      if ps[i].attrs != [] {
        entries := Put(entries, NameOf(ps[i]), ps[i].text);
      }
    }
    assert ps[..|ps|] == ps;
  }

  /** parse's loop over a unit's `<tuv>` elements. */
  method CollectVariants(u: Unit, tuvs: seq<Node>, docLocale: string) returns (r: Unit)
    ensures r == ReadVariants(u, tuvs, docLocale)
  {
    r := u;
    for i := 0 to |tuvs|
      invariant r == ReadVariants(u, tuvs[..i], docLocale)
    {
      assert tuvs[..i + 1][..i] == tuvs[..i];
      var v := tuvs[i];
      var locale: Option<string> := None;
      if Truthy(Attr(v, "lang")) {
        locale := Attr(v, "lang");
      } else if Truthy(Attr(v, "xml:lang")) {
        locale := Attr(v, "xml:lang");
      }
      var text: Option<string> := None;
      match Single(Kid(v, "seg")) {
        case Some(seg) => text := seg.text;
        case None =>
      }
      if Truthy(locale) && Truthy(text) {
        var variant := Variant(locale.value, text);
        r := r.(variants := AddVariant(r.variants, variant));
        if variant.locale == docLocale {
          r := r.(head := r.head.(source := variant.text, sourceLocale := Some(variant.locale)));
        }
      }
    }
    assert tuvs[..|tuvs|] == tuvs;
  }

  /** parse's reading of one `<tu>` element that has attributes. */
  method ReadUnit(n: Node, docLocale: string) returns (u: Unit)
    ensures u == UnitOf(n, docLocale)
  {
    var props: Props := [];
    match Kid(n, "prop") {
      case Some(v) =>
        var entries := CollectProps(MakeArray(v));
        props := AddProperties(props, entries);
      case None =>
    }
    var comment: Option<string> := None;
    match Single(Kid(n, "note")) {
      case Some(m) => comment := m.text;
      case None =>
    }
    u := Unit(Head(None, None, None, props, comment), []);
    u := CollectVariants(u, TuvNodes(n), docLocale);
  }

  /** The last position of a locale in a variant list that contains it. */
  lemma {:induction false} LastIndexIn(ks: seq<Variant>, loc: string) returns (i: int)
    requires exists x :: x in ks && x.locale == loc
    ensures LastIn(ks, i, loc)
    decreases |ks|
  {
    var n := |ks| - 1;
    if ks[n].locale == loc {
      i := n;
    } else {
      var x :| x in ks && x.locale == loc;
      var k :| 0 <= k < |ks| && ks[k] == x;
      assert ks[..n][k] == x;
      i := LastIndexIn(ks[..n], loc);
    }
  }

  /** The index of the first `<tu>` without attributes, where parse stops with an error. */
  function FirstBare(nodes: seq<Node>): (k: nat)
    ensures k <= |nodes|
    ensures forall i :: 0 <= i < k ==> nodes[i].attrs != []
    ensures k < |nodes| ==> nodes[k].attrs == []
    decreases |nodes|
  {
    if nodes == [] || nodes[0].attrs == [] then 0
    else
      var k := FirstBare(nodes[1..]);
      assert forall i :: 1 <= i < k + 1 ==> nodes[i] == nodes[1..][i - 1];
      k + 1
  }

  /** The units parse pushes: one per `<tu>`, up to the first one without attributes. */
  function ParsedUnits(nodes: seq<Node>, docLocale: string): (us: seq<Unit>)
    ensures |us| == FirstBare(nodes)
  {
    ReadAll(nodes[..FirstBare(nodes)], docLocale)
  }

  /** Every element read as a unit, in order. */
  function ReadAll(nodes: seq<Node>, docLocale: string): (us: seq<Unit>)
    ensures |us| == |nodes|
    ensures forall i :: 0 <= i < |nodes| ==> us[i] == UnitOf(nodes[i], docLocale)
  {
    seq(|nodes|, i requires 0 <= i < |nodes| => UnitOf(nodes[i], docLocale))
  }

  lemma ReadAllTake(nodes: seq<Node>, i: nat, docLocale: string)
    requires i < |nodes|
    ensures ReadAll(nodes[..i + 1], docLocale) == ReadAll(nodes[..i], docLocale) + [UnitOf(nodes[i], docLocale)]
  {
    var a := ReadAll(nodes[..i + 1], docLocale);
    var b := ReadAll(nodes[..i], docLocale) + [UnitOf(nodes[i], docLocale)];
    assert |a| == |b|;
    forall j | 0 <= j < |a| ensures a[j] == b[j] {
      if j < i {
        assert nodes[..i + 1][j] == nodes[..i][j];
      }
    }
  }

  // ----------------------------------------------------------- round trip

  /** A written `<tuv>` reads back as the variant it was written from, unless its locale or text is empty. */
  lemma VariantRoundTrip(v: Variant)
    ensures ReadVariant(VariantNode(v)) == if v.locale != "" && Truthy(v.text) then Some(v) else None
  {
    var n := VariantNode(v);
    assert Attr(n, "lang") == None by { assert Get(n.attrs[1..], "lang") == None; }
    assert Attr(n, "xml:lang") == Some(v.locale);
    assert Kid(n, "seg") == Some(One(TextNode(v.text)));
  }

  /** A variant with a non-empty locale and text. */
  predicate Complete(v: Variant) {
    v.locale != "" && Truthy(v.text)
  }

  /** Written `<tuv>` elements of complete variants read back as those variants, in order. */
  lemma {:induction false} KeptVariantsRoundTrip(vs: seq<Variant>)
    requires forall x :: x in vs ==> Complete(x)
    ensures KeptVariants(VariantNodes(vs)) == vs
    decreases |vs|
  {
    if vs != [] {
      var n := |vs| - 1;
      var init := vs[..n];
      assert VariantNodes(vs)[..n] == VariantNodes(init);
      assert forall x :: x in init ==> x in vs;
      KeptVariantsRoundTrip(init);
      assert vs[n] in vs;
      VariantRoundTrip(vs[n]);
      assert init + [vs[n]] == vs;
    }
  }

  /** Written `<prop>` elements carry `type`, not `name`: they all land under "undefined", the last one winning. */
  lemma {:induction false} PropEntriesRoundTrip(p: Props)
    ensures PropEntries(PropNodes(p)) == if p == [] then [] else [("undefined", Some(p[|p| - 1].1))]
    decreases |p|
  {
    if p != [] {
      var n := |p| - 1;
      var ns := PropNodes(p);
      assert ns[..n] == PropNodes(p[..n]);
      PropEntriesRoundTrip(p[..n]);
      var last := ns[n];
      assert last == Node([("type", p[n].0)], Some(p[n].1), []);
      assert Attr(last, "name") == None by { assert Get(last.attrs[1..], "name") == None; }
    }
  }

  /** The properties a written unit reads back: at most one, "undefined", holding the last value if it is non-empty. */
  function PropsAfterRoundTrip(p: Props): Props {
    if p == [] || p[|p| - 1].1 == "" then [] else [("undefined", p[|p| - 1].1)]
  }

  lemma PropsRoundTrip(p: Props)
    ensures p != [] ==> AddProperties([], PropEntries(PropNodes(p))) == PropsAfterRoundTrip(p)
  {
    PropEntriesRoundTrip(p);
    if p != [] {
      var q := [("undefined", Some(p[|p| - 1].1))];
      assert q[..0] == [];
      assert AddProperties([], q) == PropsAfterRoundTrip(p);
    }
  }

  /** The children of a written `<tu>`: its properties if any, no note, and its variants. */
  lemma UnitElementKids(u: Unit)
    ensures var n := UnitElement(u);
      && (u.head.properties == [] ==> Kid(n, "prop") == None)
      && (u.head.properties != [] ==> Kid(n, "prop") == Some(Many(PropNodes(u.head.properties))))
      && Kid(n, "note") == None
      && Kid(n, "tuv") == Some(Many(VariantNodes(u.variants)))
  {
    var n := UnitElement(u);
    var tuv := [("tuv", Many(VariantNodes(u.variants)))];
    assert Get(tuv, "prop") == None by { assert Get(tuv[1..], "prop") == None; }
    assert Get(tuv, "note") == None by { assert Get(tuv[1..], "note") == None; }
    if u.head.properties != [] {
      var pr := [("prop", Many(PropNodes(u.head.properties)))];
      assert n.kids == pr + tuv;
      GetAppend(pr, tuv, "note");
      GetAppend(pr, tuv, "tuv");
      assert Get(pr, "note") == None by { assert Get(pr[1..], "note") == None; }
    } else {
      assert n.kids == tuv;
    }
  }

  /** What parse starts a written unit from: its properties after the round trip, no note, no variants. */
  lemma UnitElementStart(u: Unit)
    ensures UnitStart(UnitElement(u)) == Unit(Head(None, None, None, PropsAfterRoundTrip(u.head.properties), None), [])
    ensures TuvNodes(UnitElement(u)) == VariantNodes(u.variants)
  {
    UnitElementKids(u);
    PropsRoundTrip(u.head.properties);
  }

  /** A unit serialize writes and parse can read back. */
  predicate Readable(u: Unit) {
    u.head.sourceLocale.Some? && NoDup(u.variants) && forall x :: x in u.variants ==> Complete(x)
  }

  /**
   * Serializing a unit and parsing the element back: a unit without a
   * source locale is written without attributes, which stops parse;
   * otherwise the variants come back as they were, the properties
   * collapse to the last value under "undefined", the comment and data
   * type are lost, and the source is the last variant in the document
   * locale.
   */
  lemma UnitRoundTrip(u: Unit, docLocale: string)
    requires NoDup(u.variants) && forall x :: x in u.variants ==> Complete(x)
    ensures UnitElement(u).attrs == [] <==> u.head.sourceLocale.None?
    ensures var r := UnitOf(UnitElement(u), docLocale);
      && r.variants == u.variants
      && r.head.properties == PropsAfterRoundTrip(u.head.properties)
      && r.head.comment == None && r.head.dataType == None
      && (forall i :: LastIn(u.variants, i, docLocale) ==>
            r.head.source == u.variants[i].text && r.head.sourceLocale == Some(docLocale))
      && ((forall x :: x in u.variants ==> x.locale != docLocale) ==>
            r.head.source == None && r.head.sourceLocale == None)
  {
    var n := UnitElement(u);
    UnitElementKids(u);
    UnitElementStart(u);
    KeptVariantsRoundTrip(u.variants);
    AddVariantsFromEmpty(u.variants);
    ReadVariantsAdds(UnitStart(n), TuvNodes(n), docLocale);
    UnitSourceRoundTrip(u, docLocale);
  }

  /** The source and its locale a written unit reads back: from its last variant in the document locale, if any. */
  lemma UnitSourceRoundTrip(u: Unit, docLocale: string)
    requires NoDup(u.variants) && forall x :: x in u.variants ==> Complete(x)
    ensures var r := UnitOf(UnitElement(u), docLocale);
      && (forall i :: LastIn(u.variants, i, docLocale) ==>
            r.head.source == u.variants[i].text && r.head.sourceLocale == Some(docLocale))
      && ((forall x :: x in u.variants ==> x.locale != docLocale) ==>
            r.head.source == None && r.head.sourceLocale == None)
  {
    var n := UnitElement(u);
    UnitElementStart(u);
    KeptVariantsRoundTrip(u.variants);
    var start := UnitStart(n);
    var tuvs := TuvNodes(n);
    assert KeptVariants(tuvs) == u.variants;
    forall i | LastIn(u.variants, i, docLocale)
      ensures ReadVariants(start, tuvs, docLocale).head.source == u.variants[i].text
      ensures ReadVariants(start, tuvs, docLocale).head.sourceLocale == Some(docLocale)
    {
      ReadVariantsSource(start, tuvs, docLocale, i);
    }
    if forall x :: x in u.variants ==> x.locale != docLocale {
      ReadVariantsNoSource(start, tuvs, docLocale);
    }
  }

  /** The creation tool serialize names is never empty. */
  lemma ToolNonEmpty(s: Settings)
    ensures Tool(s) != ""
  {
  }

  /**
   * Serializing and parsing the header back: the tool is always read
   * back, the tool version when it is known, and segment type, data type
   * and source locale when they are non-empty; the properties in the
   * header are not read back at all.
   */
  lemma HeaderRoundTrip(s: Settings, tu: seq<Unit>, packageVersion: Option<string>, s0: Settings)
    ensures var tv := ToolVersion(s, packageVersion);
      ReadHeader(SerializeTree(s, tu, packageVersion), s0) ==
        s0.(creationtool := Some(Tool(s)),
            creationtoolversion := if Truthy(tv) then tv else s0.creationtoolversion,
            dataType := if s.dataType != "" then s.dataType else s0.dataType,
            segtype := if s.segtype != "" then s.segtype else s0.segtype,
            sourceLocale := if s.sourceLocale != "" then s.sourceLocale else s0.sourceLocale)
  {
    SerializeHeader(s, tu, packageVersion);
    ToolNonEmpty(s);
    var t := SerializeTree(s, tu, packageVersion);
    assert t.kids[0].0 == "header";
    assert Single(Kid(t, "header")) == Some(HeaderOf(t));
  }

  /** Serialize writes version "1.4" exactly when the version text reads "1.4"; only then is the tree parsed. */
  lemma SerializeGate(s: Settings, tu: seq<Unit>, packageVersion: Option<string>)
    ensures VersionGate(Some(One(SerializeTree(s, tu, packageVersion)))).Accepted? <==> VersionString(s.version) == "1.4"
  {
    SerializeHeader(s, tu, packageVersion);
  }

  /**
   * Serializing and parsing back the units: when every written unit is
   * readable, parse reads back one unit per written unit, in order, each
   * with its variants as they were; a written unit without a source
   * locale stops parse there.
   */
  lemma BodyRoundTrip(s: Settings, tu: seq<Unit>, packageVersion: Option<string>, docLocale: string)
    ensures var nodes := UnitNodes(SerializeTree(s, tu, packageVersion));
      var kept := Kept(tu);
      && |nodes| == |kept|
      && (FirstBare(nodes) == |nodes| <==> forall i :: 0 <= i < |kept| ==> kept[i].head.sourceLocale.Some?)
      && ((forall u :: u in kept ==> Readable(u)) ==>
            var us := ParsedUnits(nodes, docLocale);
            |us| == |kept| && forall i :: 0 <= i < |us| ==> us[i].variants == kept[i].variants)
  {
    UnitNodesOfTree(s, tu, packageVersion);
    BodyUnitsRoundTrip(tu, docLocale);
  }

  /** The `<tu>` elements parse finds in a serialized document are the ones serialize wrote. */
  lemma UnitNodesOfTree(s: Settings, tu: seq<Unit>, packageVersion: Option<string>)
    ensures UnitNodes(SerializeTree(s, tu, packageVersion)) == BodyUnits(tu)
  {
    var t := SerializeTree(s, tu, packageVersion);
    SerializeBody(s, tu, packageVersion);
    assert Single(Kid(t, "body")) == Some(BodyOf(t)) by {
      assert t.kids[0].0 != "body";
      assert Get(t.kids, "body") == Get(t.kids[1..], "body");
    }
  }

  /** Reading back the written `<tu>` elements. */
  lemma BodyUnitsRoundTrip(tu: seq<Unit>, docLocale: string)
    ensures var nodes := BodyUnits(tu);
      var kept := Kept(tu);
      && |nodes| == |kept|
      && (FirstBare(nodes) == |nodes| <==> forall i :: 0 <= i < |kept| ==> kept[i].head.sourceLocale.Some?)
      && ((forall u :: u in kept ==> Readable(u)) ==>
            var us := ParsedUnits(nodes, docLocale);
            |us| == |kept| && forall i :: 0 <= i < |us| ==> us[i].variants == kept[i].variants)
  {
    var kept := Kept(tu);
    var nodes := BodyUnits(tu);
    forall i | 0 <= i < |kept|
      ensures nodes[i] == UnitElement(kept[i])
    {
    }
    if forall u :: u in kept ==> Readable(u) {
      forall i | 0 <= i < |kept| ensures nodes[i].attrs != [] {
        assert kept[i] in kept;
      }
      var us := ParsedUnits(nodes, docLocale);
      forall i | 0 <= i < |us| ensures us[i].variants == kept[i].variants {
        assert kept[i] in kept;
        UnitRoundTrip(kept[i], docLocale);
      }
    }
  }
}
