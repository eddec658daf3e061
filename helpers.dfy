/**
 * The small pure helpers of the TMX document: the version string, the
 * segmentation option filter and the segmentation of a string.
 */
module Helpers {
  import opened Wrappers

  /** Position of the first '.' in s, or |s| when there is none. */
  function IndexOfDot(s: string): (i: nat)
    ensures i <= |s|
    ensures i < |s| ==> s[i] == '.'
    ensures forall k :: 0 <= k < i ==> s[k] != '.'
  {
    if s == [] then 0
    else if s[0] == '.' then 0
    else 1 + IndexOfDot(s[1..])
  }

  /**
   * versionString: the text of the number split at '.'; the first part,
   * a '.', then the second part, or "0" when it is missing or empty.
   * The argument is the decimal text of the JavaScript number.
   */
  function VersionString(num: string): (r: string)
    ensures '.' !in num ==> r == num + ".0"
    ensures IndexOfDot(num) < |r| && IndexOfDot(r) == IndexOfDot(num)
    ensures r[..IndexOfDot(num)] == num[..IndexOfDot(num)]
    ensures forall k :: IndexOfDot(num) < k < |r| ==> r[k] != '.'
    ensures IndexOfDot(num) + 1 < |r|
  {
    var d := IndexOfDot(num);
    var integral := num[..d];
    var fraction := if d < |num| then num[d + 1..][..IndexOfDot(num[d + 1..])] else "";
    var r := integral + "." + (if fraction == "" then "0" else fraction);
    assert '.' !in num ==> d == |num| by {
      if '.' !in num { IndexOfDotNone(num); }
    }
    assert r[d] == '.';
    assert IndexOfDot(r) == d by { IndexOfDotAt(r, d); }
    r
  }

  lemma {:induction false} IndexOfDotAt(s: string, d: nat)
    requires d < |s| && s[d] == '.'
    requires forall k :: 0 <= k < d ==> s[k] != '.'
    ensures IndexOfDot(s) == d
    decreases d
  {
    if d > 0 {
      IndexOfDotAt(s[1..], d - 1);
    }
  }

  lemma {:induction false} IndexOfDotNone(s: string)
    requires '.' !in s
    ensures IndexOfDot(s) == |s|
  {
    if s != [] {
      assert s[0] in s;
      assert forall c :: c in s[1..] ==> c in s;
      IndexOfDotNone(s[1..]);
    }
  }

  /** A number with a non-empty fraction renders unchanged: "1.4" stays "1.4". */
  lemma VersionStringKeepsFraction(a: string, b: string)
    requires '.' !in a && '.' !in b && b != ""
    ensures VersionString(a + "." + b) == a + "." + b
  {
    var s := a + "." + b;
    IndexOfDotAt(s, |a|);
    assert s[|a| + 1..] == b;
    IndexOfDotNone(b);
  }

  /** The two cases the document relies on: 1.4 gives "1.4", 2 gives "2.0". */
  lemma VersionStringExamples()
    ensures VersionString("1.4") == "1.4"
    ensures VersionString("2") == "2.0"
  {
    assert "1" + "." + "4" == "1.4";
    VersionStringKeepsFraction("1", "4");
    assert '.' !in "2";
  }

  /** The characters String.prototype.trim removes: white space and line terminators. */
  predicate IsSpace(c: char) {
    c == ' ' || c == '\t' || c == '\n' || c == '\r' || c == '\U{B}' || c == '\U{C}'
    || c == '\U{A0}' || c == '\U{1680}' || ('\U{2000}' <= c <= '\U{200A}')
    || c == '\U{2028}' || c == '\U{2029}' || c == '\U{202F}' || c == '\U{205F}'
    || c == '\U{3000}' || c == '\U{FEFF}'
  }

  function SkipLeading(s: string): (i: nat)
    ensures i <= |s|
    ensures forall k :: 0 <= k < i ==> IsSpace(s[k])
    ensures i < |s| ==> !IsSpace(s[i])
  {
    if s == [] || !IsSpace(s[0]) then 0 else 1 + SkipLeading(s[1..])
  }

  function SkipTrailing(s: string): (j: nat)
    ensures j <= |s|
    ensures forall k :: j <= k < |s| ==> IsSpace(s[k])
    ensures 0 < j ==> !IsSpace(s[j - 1])
  {
    if s == [] || !IsSpace(s[|s| - 1]) then |s| else SkipTrailing(s[..|s| - 1])
  }

  /** String.prototype.trim: the slice of s between its leading and trailing white space. */
  function Trim(s: string): (r: string)
    ensures r == "" || (!IsSpace(r[0]) && !IsSpace(r[|r| - 1]))
    ensures r == "" ==> forall k :: 0 <= k < |s| ==> IsSpace(s[k])
    ensures var i := SkipLeading(s);
      && i + |r| <= |s| && s[i..i + |r|] == r
      && (forall k :: 0 <= k < i ==> IsSpace(s[k]))
      && (forall k :: i + |r| <= k < |s| ==> IsSpace(s[k]))
  {
    var i := SkipLeading(s);
    var t := s[i..];
    var r := t[..SkipTrailing(t)];
    assert s[i..i + |r|] == r;
    assert r != "" ==> r[0] == s[i];
    r
  }

  /** The segmentation mode the constructor keeps: only "paragraph" or "sentence" are taken. */
  function SegmentationOption(requested: Option<string>): (r: string)
    ensures r == "paragraph" || r == "sentence"
    ensures requested == Some("sentence") ==> r == "sentence"
    ensures requested != Some("sentence") ==> r == "paragraph"
  {
    if Truthy(requested) && (requested.value == "paragraph" || requested.value == "sentence")
    then requested.value
    else "paragraph"
  }

  /** The external sentence splitter: text and locale to an ordered list of pieces. */
  type Splitter = (string, string) -> seq<string>

  /**
   * segmentString: nothing for an absent or empty string, the whole
   * string in paragraph mode, otherwise the splitter's pieces, each trimmed.
   */
  function SegmentString(s: Option<string>, locale: string, segtype: string, split: Splitter): (r: seq<string>)
    ensures !Truthy(s) ==> r == []
    ensures Truthy(s) && segtype == "paragraph" ==> r == [s.value]
    ensures Truthy(s) && segtype != "paragraph" ==> |r| == |split(s.value, locale)|
    ensures Truthy(s) && segtype != "paragraph" ==>
      forall i :: 0 <= i < |r| ==> r[i] == Trim(split(s.value, locale)[i])
    ensures segtype != "paragraph" ==>
      forall seg :: seg in r ==> seg == "" || (!IsSpace(seg[0]) && !IsSpace(seg[|seg| - 1]))
  {
    if !Truthy(s) then []
    else if segtype == "paragraph" then [s.value]
    else
      var pieces := split(s.value, locale);
      seq(|pieces|, i requires 0 <= i < |pieces| => Trim(pieces[i]))
  }
}
