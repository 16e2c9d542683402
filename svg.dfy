/**
 * `svgToDataUrl` of `svg.ts`: trim the markup, overwrite every quoted
 * `fill` and `stroke` attribute with the requested colours, give the first
 * shape element a `fill` when the markup has neither attribute, and wrap the
 * base64 of the result in a `data:` URL.
 */
module Svg {
  import opened Wrappers
  import Text
  import Base64

  datatype Colors = Colors(fill: string, stroke: string)

  /** The colours used when the caller passes none. */
  const DefaultColors: Colors := Colors("currentColor", "currentColor")

  const DataUrlPrefix: string := "data:image/svg+xml;base64,"

  // ---------------------------------------------------------------------
  // Searching
  // ---------------------------------------------------------------------

  /** The first position at or after `from` where `sub` occurs. */
  function FirstAt(s: string, sub: string, from: nat): (r: Option<nat>)
    ensures r.Some? ==> from <= r.value && Text.OccursAt(s, sub, r.value)
    ensures r.Some? ==> forall k :: from <= k < r.value ==> !Text.OccursAt(s, sub, k)
    ensures r.None? ==> forall k :: from <= k ==> !Text.OccursAt(s, sub, k)
    decreases |s| - from
  {
    if from + |sub| > |s| then None
    else if Text.OccursAt(s, sub, from) then Some(from)
    else FirstAt(s, sub, from + 1)
  }

  /** The last position in `from..k` where `sub` occurs. */
  function LastIn(s: string, sub: string, from: nat, k: int): (r: Option<nat>)
    requires from <= k + 1
    ensures r.Some? ==> from <= r.value <= k && Text.OccursAt(s, sub, r.value)
    ensures r.Some? ==> forall j :: r.value < j <= k ==> !Text.OccursAt(s, sub, j)
    ensures r.None? ==> forall j :: from <= j <= k ==> !Text.OccursAt(s, sub, j)
    decreases k + 1 - from
  {
    if k < from then None
    else if Text.OccursAt(s, sub, k) then Some(k)
    else LastIn(s, sub, from, k - 1)
  }

  /** The last position at or after `from` where `sub` occurs. */
  function LastAt(s: string, sub: string, from: nat): (r: Option<nat>)
    ensures r.Some? ==> from <= r.value && Text.OccursAt(s, sub, r.value)
    ensures r.Some? ==> forall j :: r.value < j ==> !Text.OccursAt(s, sub, j)
    ensures r.None? ==> forall j :: from <= j ==> !Text.OccursAt(s, sub, j)
  {
    if |s| - |sub| < from then None else LastIn(s, sub, from, |s| - |sub|)
  }

  // ---------------------------------------------------------------------
  // Overwriting attributes: `s.replace(/key="[^"]*"/g, 'key="value"')`
  // ---------------------------------------------------------------------

  /** The text an attribute match starts with: `key="`. */
  function AttrOpen(key: string): string {
    key + "=\""
  }

  /** The pattern matches at the start of `s`: `key="` and a closing quote later. */
  predicate MatchesAt(s: string, key: string) {
    Text.StartsWith(s, AttrOpen(key)) && '"' in s[|AttrOpen(key)|..]
  }

  /** The index of the closing quote of the match at the start of `s`. */
  function Close(s: string, key: string): (c: nat)
    requires MatchesAt(s, key)
    ensures |AttrOpen(key)| <= c < |s| && s[c] == '"'
    ensures '"' !in s[|AttrOpen(key)|..c]
  {
    var open := |AttrOpen(key)|;
    var c := open + Text.IndexOf(s[open..], '"');
    assert forall k :: open <= k < c ==> s[k] == s[open..][k - open];
    c
  }

  /**
   * The global replacement: scanning left to right, each match
   * `key="…"` becomes `key="value"` and the scan resumes after it; every
   * other character is kept.
   */
  function ReplaceAttr(s: string, key: string, value: string): string
    decreases |s|
  {
    if MatchesAt(s, key) then
      AttrOpen(key) + value + "\"" + ReplaceAttr(s[Close(s, key) + 1..], key, value)
    else if s == [] then []
    else [s[0]] + ReplaceAttr(s[1..], key, value)
  }

  /** Every match the same scan finds in `s` already holds `value`. */
  predicate AllHold(s: string, key: string, value: string)
    decreases |s|
  {
    if MatchesAt(s, key) then
      s[|AttrOpen(key)|..Close(s, key)] == value && AllHold(s[Close(s, key) + 1..], key, value)
    else s == [] || AllHold(s[1..], key, value)
  }

  /** The replacement keeps the first `n <= |key="|` characters, so it never moves where a match starts. */
  lemma {:induction false} ReplaceKeepsPrefix(t: string, key: string, value: string, n: nat)
    requires n <= |AttrOpen(key)|
    ensures |t| >= n <==> |ReplaceAttr(t, key, value)| >= n
    ensures |t| >= n ==> ReplaceAttr(t, key, value)[..n] == t[..n]
    decreases |t|
  {
    if MatchesAt(t, key) {
      MatchKeepsPrefix(t, key, value, n);
    } else if t != [] && n > 0 {
      ReplaceKeepsPrefix(t[1..], key, value, n - 1);
      StepKeepsPrefix(t, key, value, n);
    }
  }

  /** A match is rewritten behind the same `key="`. */
  lemma MatchKeepsPrefix(t: string, key: string, value: string, n: nat)
    requires n <= |AttrOpen(key)| && MatchesAt(t, key)
    ensures |t| >= n && |ReplaceAttr(t, key, value)| >= n
    ensures ReplaceAttr(t, key, value)[..n] == t[..n]
  {
    var open := AttrOpen(key);
    var r := ReplaceAttr(t, key, value);
    var rest := ReplaceAttr(t[Close(t, key) + 1..], key, value);
    assert r == open + (value + "\"" + rest);
    assert r[..n] == open[..n];
    assert t[..|open|] == open;
    assert t[..n] == t[..|open|][..n];
  }

  /** A kept first character stays first, ahead of the rest's kept prefix. */
  lemma StepKeepsPrefix(t: string, key: string, value: string, n: nat)
    requires 0 < n <= |AttrOpen(key)| && !MatchesAt(t, key) && t != []
    requires |t[1..]| >= n - 1 <==> |ReplaceAttr(t[1..], key, value)| >= n - 1
    requires |t[1..]| >= n - 1 ==> ReplaceAttr(t[1..], key, value)[..n - 1] == t[1..][..n - 1]
    ensures |t| >= n <==> |ReplaceAttr(t, key, value)| >= n
    ensures |t| >= n ==> ReplaceAttr(t, key, value)[..n] == t[..n]
  {
    var r := ReplaceAttr(t, key, value);
    var rest := ReplaceAttr(t[1..], key, value);
    assert r == [t[0]] + rest;
    if |t| >= n {
      assert r[..n] == [t[0]] + rest[..n - 1];
      assert t[..n] == [t[0]] + t[1..][..n - 1];
    }
  }

  /**
   * Text without a quote from index `m < |key="|` on holds no match: the
   * replacement leaves it alone, and it vacuously holds every value.
   */
  lemma {:induction false} QuoteFreeTailUnchanged(t: string, key: string, value: string, m: nat)
    requires m < |AttrOpen(key)|
    requires forall k :: m <= k < |t| ==> t[k] != '"'
    ensures ReplaceAttr(t, key, value) == t
    ensures AllHold(t, key, value)
    decreases |t|
  {
    var open := AttrOpen(key);
    assert open[|open| - 1] == '"';
    assert |t| >= |open| ==> t[|open| - 1] != '"';
    assert !Text.StartsWith(t, open);
    if t != [] {
      QuoteFreeTailUnchanged(t[1..], key, value, if m > 0 then m - 1 else 0);
      assert t == [t[0]] + t[1..];
    }
  }

  /** A match is `key="`, a quote-free value, the closing quote and the rest. */
  lemma MatchParts(s: string, key: string)
    requires MatchesAt(s, key)
    ensures s == AttrOpen(key) + s[|AttrOpen(key)|..Close(s, key)] + "\"" + s[Close(s, key) + 1..]
  {
    var open, c := |AttrOpen(key)|, Close(s, key);
    assert s == s[..open] + s[open..c] + [s[c]] + s[c + 1..];
  }

  /** `key="value"` followed by anything is a match whose value is `value`, for a quote-free `value`. */
  lemma WrittenMatch(key: string, value: string, rest: string)
    requires '"' !in value
    ensures var r := AttrOpen(key) + value + "\"" + rest;
      && MatchesAt(r, key)
      && Close(r, key) == |AttrOpen(key)| + |value|
      && r[|AttrOpen(key)|..Close(r, key)] == value
      && r[Close(r, key) + 1..] == rest
  {
    var open := AttrOpen(key);
    var r := open + value + "\"" + rest;
    assert r[..|open|] == open;
    assert r[|open|..] == value + "\"" + rest;
    assert (value + "\"" + rest)[|value|] == '"';
    assert Text.IndexOf(r[|open|..], '"') == |value|;
  }

  /** `key="` with no closing quote after it: nothing from there on matches. */
  lemma UnclosedOpenUnchanged(s: string, key: string, value: string)
    requires Text.StartsWith(s, AttrOpen(key)) && !MatchesAt(s, key)
    ensures ReplaceAttr(s, key, value) == s
    ensures AllHold(s, key, value)
  {
    var open := AttrOpen(key);
    assert forall k :: |open| - 1 <= k < |s[1..]| ==> s[1..][k] == s[|open|..][k + 1 - |open|];
    QuoteFreeTailUnchanged(s[1..], key, value, |open| - 1);
    assert s == [s[0]] + s[1..];
  }

  /** Text not starting with `key="` keeps its first character, and its replacement does not start with `key="` either. */
  lemma UnmatchedStartKept(s: string, key: string, value: string)
    requires s != [] && !Text.StartsWith(s, AttrOpen(key))
    ensures var r := ReplaceAttr(s, key, value);
      r != [] && !MatchesAt(r, key) && r[1..] == ReplaceAttr(s[1..], key, value)
  {
    var open := AttrOpen(key);
    var tail := ReplaceAttr(s[1..], key, value);
    var r := ReplaceAttr(s, key, value);
    assert r == [s[0]] + tail;
    ReplaceKeepsPrefix(s[1..], key, value, |open| - 1);
    if |s| >= |open| {
      assert r[..|open|] == [s[0]] + tail[..|open| - 1];
      assert s[..|open|] == [s[0]] + s[1..][..|open| - 1];
    }
  }

  /** With a quote-free colour, every match in the replaced text holds the colour. */
  lemma {:induction false} ReplaceAttrHolds(s: string, key: string, value: string)
    requires '"' !in value
    ensures AllHold(ReplaceAttr(s, key, value), key, value)
    decreases |s|
  {
    var open := AttrOpen(key);
    var r := ReplaceAttr(s, key, value);
    if MatchesAt(s, key) {
      var rest := ReplaceAttr(s[Close(s, key) + 1..], key, value);
      ReplaceAttrHolds(s[Close(s, key) + 1..], key, value);
      WrittenMatch(key, value, rest);
    } else if s != [] {
      if Text.StartsWith(s, open) {
        UnclosedOpenUnchanged(s, key, value);
      } else {
        ReplaceAttrHolds(s[1..], key, value);
        UnmatchedStartKept(s, key, value);
      }
    }
  }

  /** Text whose every match holds `value` is a fixed point of the replacement. */
  lemma {:induction false} AllHoldFixed(s: string, key: string, value: string)
    requires AllHold(s, key, value)
    ensures ReplaceAttr(s, key, value) == s
    decreases |s|
  {
    if MatchesAt(s, key) {
      AllHoldFixed(s[Close(s, key) + 1..], key, value);
      MatchParts(s, key);
    } else if s != [] {
      AllHoldFixed(s[1..], key, value);
      assert s == [s[0]] + s[1..];
    }
  }

  /** Overwriting the same attribute with the same quote-free colour twice changes nothing the second time. */
  lemma ReplaceAttrIdempotent(s: string, key: string, value: string)
    requires '"' !in value
    ensures ReplaceAttr(ReplaceAttr(s, key, value), key, value) == ReplaceAttr(s, key, value)
  {
    ReplaceAttrHolds(s, key, value);
    AllHoldFixed(ReplaceAttr(s, key, value), key, value);
  }

  /** Markup that holds no match at all is left as it is. */
  lemma {:induction false} NoMatchUnchanged(s: string, key: string, value: string)
    requires !Text.Contains(s, AttrOpen(key))
    ensures ReplaceAttr(s, key, value) == s
    decreases |s|
  {
    if s != [] {
      NoMatchUnchanged(s[1..], key, value);
      assert s == [s[0]] + s[1..];
    }
  }

  /** The two passes of the recolouring step: fills first, then strokes. */
  function Recolour(s: string, colors: Colors): string {
    ReplaceAttr(ReplaceAttr(s, "fill", colors.fill), "stroke", colors.stroke)
  }

  /**
   * After the step every `stroke` match holds the stroke colour, and
   * after its first pass every `fill` match held the fill colour.
   */
  lemma RecolourHolds(s: string, colors: Colors)
    requires '"' !in colors.fill && '"' !in colors.stroke
    ensures AllHold(ReplaceAttr(s, "fill", colors.fill), "fill", colors.fill)
    ensures AllHold(Recolour(s, colors), "stroke", colors.stroke)
  {
    ReplaceAttrHolds(s, "fill", colors.fill);
    ReplaceAttrHolds(ReplaceAttr(s, "fill", colors.fill), "stroke", colors.stroke);
  }

  /** A prefix without the key's first letter holds no match start, so the replacement passes over it. */
  lemma {:induction false} SkipsPrefixWithoutKeyStart(p: string, t: string, key: string, value: string)
    requires key != [] && key[0] !in p
    ensures ReplaceAttr(p + t, key, value) == p + ReplaceAttr(t, key, value)
    decreases |p|
  {
    if p != [] {
      var s := p + t;
      assert s[0] == p[0] != key[0] == AttrOpen(key)[0];
      assert !Text.StartsWith(s, AttrOpen(key));
      assert s[1..] == p[1..] + t;
      SkipsPrefixWithoutKeyStart(p[1..], t, key, value);
      assert ReplaceAttr(s, key, value) == [s[0]] + ReplaceAttr(s[1..], key, value);
      assert p + ReplaceAttr(t, key, value) == [p[0]] + (p[1..] + ReplaceAttr(t, key, value));
    } else {
      assert p + t == t;
    }
  }

  /** A `key="…"` match with the given value and nothing after it is rewritten to `key="value"`. */
  lemma ReplaceSingleMatch(key: string, old_value: string, value: string)
    requires '"' !in old_value
    ensures ReplaceAttr(AttrOpen(key) + old_value + "\"", key, value) == AttrOpen(key) + value + "\""
  {
    var s := AttrOpen(key) + old_value + "\"";
    WrittenMatch(key, old_value, []);
    assert s == AttrOpen(key) + old_value + "\"" + [];
    assert s[Close(s, key) + 1..] == [];
  }

  /**
   * The whole step is not idempotent for every quote-free pair of colours:
   * a stroke colour spelling `fill=` turns the stroke's closing quote into
   * the opening of a new `fill` match, which the next run overwrites.
   */
  lemma RecolourNotIdempotent()
    ensures var colors := Colors("a", "fill=");
      Recolour(Recolour("stroke=\"\" \"", colors), colors) != Recolour("stroke=\"\" \"", colors)
  {
    var colors := Colors("a", "fill=");
    var s := "stroke=\"\" \"";
    var once := "stroke=\"fill=\" \"";
    var f := "stroke=\"fill=\"a\"";
    FirstRecolour();
    SecondFillPass(once, f);
    SecondStrokePass();
    assert Recolour(once, colors) == f;
    assert f[14] != once[14];
  }

  lemma FirstRecolour()
    ensures Recolour("stroke=\"\" \"", Colors("a", "fill=")) == "stroke=\"fill=\" \""
  {
    FirstFillPass();
    FirstStrokePass();
  }

  lemma FirstFillPass()
    ensures ReplaceAttr("stroke=\"\" \"", "fill", "a") == "stroke=\"\" \""
  {
    var s := "stroke=\"\" \"";
    SkipsPrefixWithoutKeyStart(s, [], "fill", "a");
    assert s + [] == s;
  }

  lemma FirstStrokePass()
    ensures ReplaceAttr("stroke=\"\" \"", "stroke", "fill=") == "stroke=\"fill=\" \""
  {
    WrittenMatch("stroke", "", " \"");
    assert AttrOpen("stroke") + "" + "\"" + " \"" == "stroke=\"\" \"";
    SkipsPrefixWithoutKeyStart(" \"", [], "stroke", "fill=");
    assert " \"" + [] == " \"";
    assert AttrOpen("stroke") + "fill=" + "\"" + " \"" == "stroke=\"fill=\" \"";
  }

  lemma SecondFillPass(s: string, r: string)
    requires s == "stroke=\"fill=\" \"" && r == "stroke=\"fill=\"a\""
    ensures ReplaceAttr(s, "fill", "a") == r
  {
    var p := "stroke=\"";
    var t := AttrOpen("fill") + " " + "\"";
    var u := AttrOpen("fill") + "a" + "\"";
    SecondFillParts(s, r, p, t, u);
    SkipsPrefixWithoutKeyStart(p, t, "fill", "a");
    ReplaceSingleMatch("fill", " ", "a");
  }

  lemma SecondFillParts(s: string, r: string, p: string, t: string, u: string)
    requires s == "stroke=\"fill=\" \"" && r == "stroke=\"fill=\"a\"" && p == "stroke=\""
    requires t == AttrOpen("fill") + " " + "\"" && u == AttrOpen("fill") + "a" + "\""
    ensures s == p + t && r == p + u
  {
  }

  lemma SecondStrokePass()
    ensures ReplaceAttr("stroke=\"fill=\"a\"", "stroke", "fill=") == "stroke=\"fill=\"a\""
  {
    WrittenMatch("stroke", "fill=", "a\"");
    assert AttrOpen("stroke") + "fill=" + "\"" + "a\"" == "stroke=\"fill=\"a\"";
    SkipsPrefixWithoutKeyStart("a\"", [], "stroke", "fill=");
    assert "a\"" + [] == "a\"";
    assert ReplaceAttr([], "stroke", "fill=") == [];
  }

  // ---------------------------------------------------------------------
  // The envelope: `s.match(/(<svg[^>]*>)(.*)(<\/svg>)/s)`
  // ---------------------------------------------------------------------

  const SvgOpen: string := "<svg"
  const SvgClose: string := "</svg>"

  /** A match of the envelope pattern: the open tag is `start..openEnd`, the content `openEnd..closeAt`. */
  datatype Envelope = Envelope(start: nat, openEnd: nat, closeAt: nat)

  /** `<svg` at `i`, a `>` at `g` after it and `</svg>` at `c` after that: the pattern can match. */
  predicate EnvelopeWitness(s: string, i: int, g: int, c: int) {
    Text.OccursAt(s, SvgOpen, i) && i + |SvgOpen| <= g < c && Text.OccursAt(s, ">", g) && Text.OccursAt(s, SvgClose, c)
  }

  /**
   * The leftmost match: the first `<svg`, the open tag ending at the first
   * `>` after it, and the content running greedily to the last `</svg>`.
   */
  function MatchEnvelope(s: string): (r: Option<Envelope>)
    ensures r.Some? ==> EnvelopeWitness(s, r.value.start, r.value.openEnd - 1, r.value.closeAt)
    ensures r.Some? ==> forall k :: 0 <= k < r.value.start ==> !Text.OccursAt(s, SvgOpen, k)
    ensures r.Some? ==> forall k :: r.value.start + |SvgOpen| <= k < r.value.openEnd - 1 ==> !Text.OccursAt(s, ">", k)
    ensures r.Some? ==> forall k :: r.value.closeAt < k ==> !Text.OccursAt(s, SvgClose, k)
  {
    match FirstAt(s, SvgOpen, 0)
    case None => None
    case Some(i) =>
      match FirstAt(s, ">", i + |SvgOpen|)
      case None => None
      case Some(g) =>
        match LastAt(s, SvgClose, g + 1)
        case None => None
        case Some(c) =>
          Some(Envelope(i, g + 1, c))
  }

  /** The pattern fails only on markup where no `<svg`, later `>` and later `</svg>` occur in that order. */
  lemma MatchEnvelopeNone(s: string)
    ensures MatchEnvelope(s).None? <==> forall i, g, c :: !EnvelopeWitness(s, i, g, c)
  {
    if MatchEnvelope(s).Some? {
      var m := MatchEnvelope(s).value;
      assert EnvelopeWitness(s, m.start, m.openEnd - 1, m.closeAt);
    }
  }

  // ---------------------------------------------------------------------
  // The first shape element:
  // `content.replace(/(<(path|polygon|circle|rect|ellipse|line|polyline)[^>]*?)>/, ...)`
  // ---------------------------------------------------------------------

  const ShapeNames: seq<string> := ["path", "polygon", "circle", "rect", "ellipse", "line", "polyline"]

  /** `<` and a shape name start at `p`; the name may run on, as `<linearGradient` does. */
  predicate ShapeAt(s: string, p: int) {
    exists k :: 0 <= k < |ShapeNames| && Text.OccursAt(s, "<" + ShapeNames[k], p)
  }

  /** The character ending an element name. */
  predicate NameEnds(s: string, i: int) {
    0 <= i < |s| && s[i] in {' ', '\t', '\n', '\r', '/', '>'}
  }

  /** `<` and exactly a shape name start at `p`. */
  predicate ShapeElementAt(s: string, p: int) {
    exists k :: 0 <= k < |ShapeNames| && Text.OccursAt(s, "<" + ShapeNames[k], p) && NameEnds(s, p + 1 + |ShapeNames[k]|)
  }

  predicate IsShape(s: string, p: int, exact: bool) {
    if exact then ShapeElementAt(s, p) else ShapeAt(s, p)
  }

  /** A shape starts at `p` and a `>` follows at `q`. */
  predicate ShapeTag(s: string, p: int, q: int, exact: bool) {
    IsShape(s, p, exact) && p <= q && Text.OccursAt(s, ">", q)
  }

  /** The tag the pattern matches: the leftmost shape, closed by the first `>` after it. */
  predicate FirstShapeTag(s: string, p: int, q: int, exact: bool) {
    && ShapeTag(s, p, q, exact)
    && (forall k :: 0 <= k < p ==> !IsShape(s, k, exact))
    && (forall k :: p <= k < q ==> !Text.OccursAt(s, ">", k))
  }

  /** The first shape at or after `from`. */
  function FirstShape(s: string, from: nat, exact: bool): (r: Option<nat>)
    ensures r.Some? ==> from <= r.value && IsShape(s, r.value, exact)
    ensures r.Some? ==> forall k :: from <= k < r.value ==> !IsShape(s, k, exact)
    ensures r.None? ==> forall k :: from <= k ==> !IsShape(s, k, exact)
    decreases |s| - from
  {
    if from >= |s| then None
    else if IsShape(s, from, exact) then Some(from)
    else FirstShape(s, from + 1, exact)
  }

  /** Where the pattern matches: the first shape and the `>` closing its tag, if any. */
  function FindShapeTag(s: string, exact: bool): (r: Option<(nat, nat)>)
    ensures r.Some? ==> FirstShapeTag(s, r.value.0, r.value.1, exact)
  {
    match FirstShape(s, 0, exact)
    case None => None
    case Some(p) =>
      match FirstAt(s, ">", p)
      case None => None
      case Some(q) => Some((p, q))
  }

  /** The pattern fails only on text where no shape is followed by a `>`. */
  lemma FindShapeTagNone(s: string, exact: bool)
    ensures FindShapeTag(s, exact).None? <==> forall p, q :: !ShapeTag(s, p, q, exact)
  {
    if FindShapeTag(s, exact).Some? {
      var (p, q) := FindShapeTag(s, exact).value;
      assert ShapeTag(s, p, q, exact);
    }
  }

  /** Only one tag is the first shape tag. */
  lemma FirstShapeTagUnique(s: string, p: int, q: int, p': int, q': int, exact: bool)
    requires FirstShapeTag(s, p, q, exact) && FirstShapeTag(s, p', q', exact)
    ensures p == p' && q == q'
  {
  }

  /** A shape tag runs from its `<` to its `>`. */
  lemma ShapeTagBounds(s: string, p: int, q: int, exact: bool)
    requires ShapeTag(s, p, q, exact)
    ensures 0 <= p < q < |s| && s[p] == '<' && s[q] == '>'
  {
    var k :| 0 <= k < |ShapeNames| && Text.OccursAt(s, "<" + ShapeNames[k], p);
    assert s[p..p + 1 + |ShapeNames[k]|][0] == '<';
    assert s[p] == '<';
    assert s[q..q + 1] == ">";
    assert s[q] == '>';
  }

  /** The attribute the insertion adds. */
  function FillAttr(fill: string): string {
    " fill=\"" + fill + "\""
  }

  /**
   * The insertion as written: the attribute goes right before the `>`
   * closing the first tag whose name starts with a shape name.
   */
  function InsertFill(content: string, fill: string): (r: string)
    ensures FindShapeTag(content, false).None? ==> r == content
    ensures FindShapeTag(content, false).Some? ==>
      var q := FindShapeTag(content, false).value.1;
      q < |content| && content[q] == '>' && r == content[..q] + FillAttr(fill) + content[q..]
  {
    match FindShapeTag(content, false)
    case None => content
    case Some((p, q)) =>
      ShapeTagBounds(content, p, q, false);
      content[..q] + FillAttr(fill) + content[q..]
  }

  /**
   * The insertion as evidently intended: the first element named exactly
   * after a shape gets the attribute, before the `/>` of a self-closing
   * tag or before the `>` of any other.
   */
  function InsertFillIntended(content: string, fill: string): (r: string)
    ensures FindShapeTag(content, true).None? ==> r == content
    ensures FindShapeTag(content, true).Some? ==>
      var (p, q) := FindShapeTag(content, true).value;
      exists at :: p < at <= q < |content| && r == content[..at] + FillAttr(fill) + content[at..] &&
        (content[at..q + 1] == ">" || content[at..q + 1] == "/>")
  {
    match FindShapeTag(content, true)
    case None => content
    case Some((p, q)) =>
      ShapeTagBounds(content, p, q, true);
      var at := if content[q - 1] == '/' then q - 1 else q;
      assert content[p] == '<' && p < at;
      assert content[at..q + 1] == ">" || content[at..q + 1] == "/>";
      var r := content[..at] + FillAttr(fill) + content[at..];
      assert p < at <= q < |content| && r == content[..at] + FillAttr(fill) + content[at..];
      r
  }

  // ---------------------------------------------------------------------
  // The whole conversion
  // ---------------------------------------------------------------------

  /**
   * The fill insertion as the code performs it: the envelope with the first
   * shape given a `fill`, or the markup itself when no envelope matches.
   */
  function FillFirstShape(markup: string, fill: string): string {
    match MatchEnvelope(markup)
    case None => markup
    case Some(m) => markup[m.start..m.openEnd] + InsertFill(markup[m.openEnd..m.closeAt], fill) + SvgClose
  }

  /** The same step with the corrected insertion. */
  function FillFirstShapeIntended(markup: string, fill: string): string {
    match MatchEnvelope(markup)
    case None => markup
    case Some(m) => markup[m.start..m.openEnd] + InsertFillIntended(markup[m.openEnd..m.closeAt], fill) + SvgClose
  }

  /** The markup `svgToDataUrl` encodes: trimmed, recoloured, and given a fill when it had none. */
  function Process(svg: string, colors: Colors): string {
    var recoloured := Recolour(Text.Trim(svg), colors);
    if !Text.Contains(recoloured, "fill=") && !Text.Contains(recoloured, "stroke=") then FillFirstShape(recoloured, colors.fill)
    else recoloured
  }

  /**
   * `svgToDataUrl(svg, colors)`: the data URL whose base64 payload decodes
   * to the processed markup; `btoa` throws on a character above 255.
   */
  function SvgToDataUrl(svg: string, colors: Option<Colors>): (r: Result<string>)
    ensures var processed := Process(svg, colors.GetOr(DefaultColors));
      r.Success? <==> forall k :: 0 <= k < |processed| ==> processed[k] as int < 256
    ensures r.Success? ==> Text.StartsWith(r.value, DataUrlPrefix)
    ensures r.Success? ==> var processed := Process(svg, colors.GetOr(DefaultColors));
      var d := Base64.Decode(r.value[|DataUrlPrefix|..]);
      d.Some? && |d.value| == |processed| && forall k :: 0 <= k < |processed| ==> d.value[k] == processed[k] as int
  {
    var processed := Process(svg, colors.GetOr(DefaultColors));
    match Base64.Btoa(processed)
    case Failure(e) => Failure(e)
    case Success(payload) =>
      Base64.BtoaRoundTrip(processed);
      assert (DataUrlPrefix + payload)[|DataUrlPrefix|..] == payload;
      Success(DataUrlPrefix + payload)
  }

  /**
   * When the recoloured markup still has a `fill=` or `stroke=`, it is
   * what gets encoded, and every `stroke` match in it holds the stroke colour.
   */
  lemma AttributesKeepMarkup(svg: string, colors: Colors)
    requires '"' !in colors.fill && '"' !in colors.stroke
    requires var recoloured := Recolour(Text.Trim(svg), colors);
      Text.Contains(recoloured, "fill=") || Text.Contains(recoloured, "stroke=")
    ensures Process(svg, colors) == Recolour(Text.Trim(svg), colors)
    ensures AllHold(Process(svg, colors), "stroke", colors.stroke)
  {
    RecolourHolds(Text.Trim(svg), colors);
  }

  /** Position `q` of `s` closes a tag: a `>`, or the `/` of a `/>`. */
  predicate TagEnd(s: string, q: int) {
    0 <= q < |s| && (s[q] == '>' || (s[q] == '/' && q + 1 < |s| && s[q + 1] == '>'))
  }

  /**
   * The insertion keeps the envelope alone: the text before the first
   * `<svg` and after the last `</svg>` is dropped, and at most one `fill`
   * attribute is added inside, before a `>` closing a tag; with no envelope
   * the markup stays as it is.
   */
  lemma EnvelopeOnly(markup: string, fill: string)
    ensures MatchEnvelope(markup).None? ==> FillFirstShape(markup, fill) == markup
    ensures MatchEnvelope(markup).Some? ==> EnvelopeKept(markup, FillFirstShape(markup, fill), fill, MatchEnvelope(markup).value)
  {
    if MatchEnvelope(markup).Some? {
      var m := MatchEnvelope(markup).value;
      assert EnvelopeWitness(markup, m.start, m.openEnd - 1, m.closeAt);
      var content := markup[m.openEnd..m.closeAt];
      InsertFillAtMostOnce(content, fill);
      SpliceKept(markup, fill, m, InsertFill(content, fill));
    }
  }

  /** The corrected step keeps the envelope alone too, adding at most one attribute where a tag closes. */
  lemma EnvelopeOnlyIntended(markup: string, fill: string)
    ensures MatchEnvelope(markup).None? ==> FillFirstShapeIntended(markup, fill) == markup
    ensures MatchEnvelope(markup).Some? ==> EnvelopeKept(markup, FillFirstShapeIntended(markup, fill), fill, MatchEnvelope(markup).value)
  {
    if MatchEnvelope(markup).Some? {
      var m := MatchEnvelope(markup).value;
      assert EnvelopeWitness(markup, m.start, m.openEnd - 1, m.closeAt);
      var content := markup[m.openEnd..m.closeAt];
      InsertFillIntendedAtMostOnce(content, fill);
      SpliceKept(markup, fill, m, InsertFillIntended(content, fill));
    }
  }

  /** `out` is the envelope `m` of `markup`, with at most a `fill` attribute added where one of its tags closes. */
  predicate EnvelopeKept(markup: string, out: string, fill: string, m: Envelope) {
    && m.start <= m.openEnd <= m.closeAt <= |markup| - |SvgClose|
    && (|| out == markup[m.start..m.closeAt + |SvgClose|]
        || exists q :: m.openEnd <= q < m.closeAt && TagEnd(markup[..m.closeAt], q) &&
                       out == markup[m.start..q] + FillAttr(fill) + markup[q..m.closeAt + |SvgClose|])
  }

  /** The insertion leaves the text alone or adds the attribute where one tag closes. */
  predicate InsertedAtMostOnce(content: string, inserted: string, fill: string) {
    || inserted == content
    || exists q :: 0 <= q < |content| && TagEnd(content, q) && inserted == content[..q] + FillAttr(fill) + content[q..]
  }

  /** As written, the attribute is added once at most, before a `>`. */
  lemma InsertFillAtMostOnce(content: string, fill: string)
    ensures InsertedAtMostOnce(content, InsertFill(content, fill), fill)
  {
    var tag := FindShapeTag(content, false);
    if tag.Some? {
      var q := tag.value.1;
      assert TagEnd(content, q) && InsertFill(content, fill) == content[..q] + FillAttr(fill) + content[q..];
    }
  }

  /** As intended, the attribute is added once at most, before a `>` or a `/>`. */
  lemma InsertFillIntendedAtMostOnce(content: string, fill: string)
    ensures InsertedAtMostOnce(content, InsertFillIntended(content, fill), fill)
  {
    var tag := FindShapeTag(content, true);
    if tag.Some? {
      var (p, q) := tag.value;
      ShapeTagBounds(content, p, q, true);
      var at := if content[q - 1] == '/' then q - 1 else q;
      assert InsertFillIntended(content, fill) == content[..at] + FillAttr(fill) + content[at..];
      assert TagEnd(content, at);
    }
  }

  lemma SpliceKept(markup: string, fill: string, m: Envelope, inserted: string)
    requires m.start <= m.openEnd <= m.closeAt && Text.OccursAt(markup, SvgClose, m.closeAt)
    requires InsertedAtMostOnce(markup[m.openEnd..m.closeAt], inserted, fill)
    ensures EnvelopeKept(markup, markup[m.start..m.openEnd] + inserted + SvgClose, fill, m)
  {
    var content := markup[m.openEnd..m.closeAt];
    if inserted == content {
      Splice(markup, fill, m.start, m.openEnd, m.closeAt, 0);
    } else {
      var q :| 0 <= q < |content| && TagEnd(content, q) && inserted == content[..q] + FillAttr(fill) + content[q..];
      SpliceAt(markup, fill, m, q);
    }
  }

  lemma SpliceAt(markup: string, fill: string, m: Envelope, q: nat)
    requires m.start <= m.openEnd <= m.closeAt && Text.OccursAt(markup, SvgClose, m.closeAt)
    requires TagEnd(markup[m.openEnd..m.closeAt], q)
    ensures var content := markup[m.openEnd..m.closeAt];
      EnvelopeKept(markup, markup[m.start..m.openEnd] + (content[..q] + FillAttr(fill) + content[q..]) + SvgClose, fill, m)
  {
    var content := markup[m.openEnd..m.closeAt];
    assert content[q] == markup[..m.closeAt][m.openEnd + q];
    if q + 1 < |content| {
      assert content[q + 1] == markup[..m.closeAt][m.openEnd + q + 1];
    }
    assert TagEnd(markup[..m.closeAt], m.openEnd + q);
    Splice(markup, fill, m.start, m.openEnd, m.closeAt, q);
  }

  /** Cutting `open + content + </svg>` out of `markup`, optionally with the attribute spliced in at offset `d` of the content. */
  lemma Splice(markup: string, fill: string, start: nat, openEnd: nat, closeAt: nat, d: nat)
    requires start <= openEnd <= openEnd + d <= closeAt && Text.OccursAt(markup, SvgClose, closeAt)
    ensures var content := markup[openEnd..closeAt];
      && markup[start..openEnd] + content + SvgClose == markup[start..closeAt + |SvgClose|]
      && markup[start..openEnd] + (content[..d] + FillAttr(fill) + content[d..]) + SvgClose
         == markup[start..openEnd + d] + FillAttr(fill) + markup[openEnd + d..closeAt + |SvgClose|]
  {
    var open := markup[start..openEnd];
    var content := markup[openEnd..closeAt];
    assert markup[closeAt..closeAt + |SvgClose|] == SvgClose;
    assert open + content[..d] == markup[start..openEnd + d];
    assert content[d..] + SvgClose == markup[openEnd + d..closeAt + |SvgClose|];
  }

  // ---------------------------------------------------------------------
  // Where the insertion as written goes wrong
  // ---------------------------------------------------------------------

  /**
   * As written, a self-closing first shape gets the attribute between its
   * `/` and `>`, leaving `/ fill="…">`, which is not a well-formed tag.
   */
  lemma SelfClosingTagBroken(content: string, fill: string)
    requires FindShapeTag(content, false).Some?
    requires var q := FindShapeTag(content, false).value.1; 0 < q && content[q - 1] == '/'
    ensures var q := FindShapeTag(content, false).value.1;
      InsertFill(content, fill)[q - 1..q + 1] == "/ "
  {
    var q := FindShapeTag(content, false).value.1;
    var r := InsertFill(content, fill);
    assert r == content[..q] + FillAttr(fill) + content[q..];
    assert r[q - 1] == content[q - 1] && r[q] == FillAttr(fill)[0];
  }

  /** The intended insertion keeps a self-closing first shape closed by `/>` right after the attribute. */
  lemma SelfClosingTagKept(content: string, fill: string)
    requires FindShapeTag(content, true).Some?
    requires var q := FindShapeTag(content, true).value.1; 0 < q && content[q - 1] == '/'
    ensures var q := FindShapeTag(content, true).value.1;
      InsertFillIntended(content, fill) == content[..q - 1] + FillAttr(fill) + "/>" + content[q + 1..]
  {
    var (p, q) := FindShapeTag(content, true).value;
    ShapeTagBounds(content, p, q, true);
    assert content[q - 1..] == "/>" + content[q + 1..];
  }

  /** `<path/>` as written: the attribute lands between the `/` and the `>`. */
  lemma SelfClosingPathExample(s: string)
    requires s == "<path/>"
    ensures InsertFill(s, "red") == "<path/ fill=\"red\">"
  {
    PathTagFound(false);
    assert InsertFill(s, "red") == s[..6] + FillAttr("red") + s[6..];
    PathAsWrittenText(s);
  }

  lemma PathAsWrittenText(s: string)
    requires s == "<path/>"
    ensures s[..6] + FillAttr("red") + s[6..] == "<path/ fill=\"red\">"
  {
  }

  /** `<path/>` as intended: the attribute goes before the `/>`. */
  lemma SelfClosingPathIntended(s: string)
    requires s == "<path/>"
    ensures InsertFillIntended(s, "red") == "<path fill=\"red\"/>"
  {
    PathIntendedSplice(s);
    PathIntendedText(s);
  }

  lemma PathIntendedSplice(s: string)
    requires s == "<path/>"
    ensures InsertFillIntended(s, "red") == s[..5] + FillAttr("red") + "/>" + s[7..]
  {
    PathTagFound(true);
    SelfClosingTagKept(s, "red");
  }

  lemma PathIntendedText(s: string)
    requires s == "<path/>"
    ensures s[..5] + FillAttr("red") + "/>" + s[7..] == "<path fill=\"red\"/>"
  {
  }

  lemma PathTagFound(exact: bool)
    ensures FindShapeTag("<path/>", exact) == Some((0, 6))
  {
    var s := "<path/>";
    assert Text.OccursAt(s, "<" + ShapeNames[0], 0);
    assert NameEnds(s, 5);
    assert IsShape(s, 0, exact);
    assert FirstShape(s, 0, exact) == Some(0);
    PathCloses();
  }

  lemma PathCloses()
    ensures FirstAt("<path/>", ">", 0) == Some(6)
  {
    var s := "<path/>";
    assert forall k :: 0 <= k < 6 ==> !Text.OccursAt(s, ">", k) by {
      forall k | 0 <= k < 6 ensures !Text.OccursAt(s, ">", k) { Text.CharNotAt(s, '>', k); }
    }
    assert Text.OccursAt(s, ">", 6);
  }

  /**
   * As written, `<linearGradient` passes for a `<line`: a gradient
   * definition ahead of the first shape takes the attribute.
   */
  lemma GradientTakesFill()
    ensures ShapeAt("<linearGradient/><path/>", 0)
    ensures FindShapeTag("<linearGradient/><path/>", false) == Some((0, 16))
  {
    var s := "<linearGradient/><path/>";
    assert Text.OccursAt(s, "<" + ShapeNames[5], 0);
    assert FirstShape(s, 0, false) == Some(0);
    assert forall k :: 0 <= k < 16 ==> !Text.OccursAt(s, ">", k) by {
      forall k | 0 <= k < 16 ensures !Text.OccursAt(s, ">", k) { Text.CharNotAt(s, '>', k); }
    }
    assert Text.OccursAt(s, ">", 16);
    assert FirstAt(s, ">", 0) == Some(16);
  }

  /** The intended match skips the gradient and finds the path. */
  lemma GradientSkipped()
    ensures !ShapeElementAt("<linearGradient/><path/>", 0)
    ensures FindShapeTag("<linearGradient/><path/>", true) == Some((17, 23))
  {
    var s := "<linearGradient/><path/>";
    GradientNotShapeElement(s);
    NoShapeInside(s);
    assert Text.OccursAt(s, "<" + ShapeNames[0], 17);
    assert NameEnds(s, 22);
    assert IsShape(s, 17, true);
    assert FirstShape(s, 0, true) == Some(17);
    GradientPathCloses(s);
  }

  /** As written, the gradient in `<linearGradient/><path/>` gets the attribute, in its broken self-closing form. */
  lemma GradientExampleAsWritten(s: string)
    requires s == "<linearGradient/><path/>"
    ensures InsertFill(s, "red") == "<linearGradient/ fill=\"red\"><path/>"
  {
    GradientTakesFill();
    assert InsertFill(s, "red") == s[..16] + FillAttr("red") + s[16..];
    GradientAsWrittenText(s);
  }

  lemma GradientAsWrittenText(s: string)
    requires s == "<linearGradient/><path/>"
    ensures s[..16] + FillAttr("red") + s[16..] == "<linearGradient/ fill=\"red\"><path/>"
  {
  }

  /** As intended, the path in `<linearGradient/><path/>` gets the attribute, before its `/>`. */
  lemma GradientExampleIntended(s: string)
    requires s == "<linearGradient/><path/>"
    ensures InsertFillIntended(s, "red") == "<linearGradient/><path fill=\"red\"/>"
  {
    GradientIntendedSplice(s);
    GradientIntendedText(s);
  }

  lemma GradientIntendedText(s: string)
    requires s == "<linearGradient/><path/>"
    ensures s[..22] + FillAttr("red") + "/>" + s[24..] == "<linearGradient/><path fill=\"red\"/>"
  {
  }

  lemma GradientIntendedSplice(s: string)
    requires s == "<linearGradient/><path/>"
    ensures InsertFillIntended(s, "red") == s[..22] + FillAttr("red") + "/>" + s[24..]
  {
    GradientSkipped();
    SelfClosingTagKept(s, "red");
  }

  lemma GradientNotShapeElement(s: string)
    requires s == "<linearGradient/><path/>"
    ensures !IsShape(s, 0, true)
  {
    forall k | 0 <= k < |ShapeNames| ensures !(Text.OccursAt(s, "<" + ShapeNames[k], 0) && NameEnds(s, 1 + |ShapeNames[k]|)) {
      if k != 5 {
        assert ("<" + ShapeNames[k])[1] != s[1];
      } else {
        assert s[5] == 'a';
      }
    }
  }

  lemma NoShapeInside(s: string)
    requires s == "<linearGradient/><path/>"
    ensures forall k :: 0 < k < 17 ==> !IsShape(s, k, true)
  {
    forall k | 0 < k < 17 ensures !IsShape(s, k, true) {
      assert s[k] != '<';
      forall j | 0 <= j < |ShapeNames| ensures !Text.OccursAt(s, "<" + ShapeNames[j], k) {
        assert ("<" + ShapeNames[j])[0] == '<';
      }
    }
  }

  lemma GradientPathCloses(s: string)
    requires s == "<linearGradient/><path/>"
    ensures FirstAt(s, ">", 17) == Some(23)
  {
    assert forall k :: 17 <= k < 23 ==> !Text.OccursAt(s, ">", k) by {
      forall k | 17 <= k < 23 ensures !Text.OccursAt(s, ">", k) { Text.CharNotAt(s, '>', k); }
    }
    assert Text.OccursAt(s, ">", 23);
  }
}
