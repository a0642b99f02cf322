/**
 * Style-sheet vocabulary: origins and their cascade rank, specificity tuples and
 * their order, selectors, values, units and colours (src/engine/stylesheet.rs).
 */
module Stylesheet {
  import opened Wrappers

  /** The origin of a style sheet; declaration order gives `Agent < User < Author`. */
  datatype Origin = Agent | User | Author

  /** The discriminant, `origin as u8`. */
  function Ordinal(o: Origin): nat {
    match o
    case Agent => 0
    case User => 1
    case Author => 2
  }

  /** The derived `Ord` on `Origin`. */
  predicate OriginLess(a: Origin, b: Origin) {
    Ordinal(a) < Ordinal(b)
  }

  /**
   * `Origin::value`: the cascade tier of a declaration.  Normal declarations rank by
   * origin (0, 1, 2); important ones sit above all of them, in reverse origin order.
   */
  function OriginValue(o: Origin, important: bool): (v: nat)
    ensures !important ==> v == Ordinal(o) && v <= 2
    ensures important ==> 3 <= v <= 5 && v + Ordinal(o) == 5
  {
    if important then 5 - Ordinal(o) else Ordinal(o)
  }

  lemma OriginOrder()
    ensures OriginLess(Agent, User) && OriginLess(User, Author)
    ensures OriginValue(Agent, false) == 0 && OriginValue(User, false) == 1 && OriginValue(Author, false) == 2
    ensures OriginValue(Agent, true) == 5 && OriginValue(User, true) == 4 && OriginValue(Author, true) == 3
  {
  }

  /** Every important declaration outranks every normal one, and importance reverses the origin order. */
  lemma ImportanceSwap(a: Origin, b: Origin)
    ensures OriginValue(a, true) > OriginValue(b, false)
    ensures OriginLess(a, b) <==> OriginValue(a, false) < OriginValue(b, false)
    ensures OriginLess(a, b) <==> OriginValue(a, true) > OriginValue(b, true)
  {
  }

  /** `(a, b, c, d)`: inline, id present, number of classes, tag present. */
  datatype Specificity = Specificity(inline: nat, ids: nat, classes: nat, tags: nat)

  /** The derived `Ord` of the tuple struct: lexicographic by field order. */
  predicate SpecLess(x: Specificity, y: Specificity) {
    x.inline < y.inline
    || (x.inline == y.inline && x.ids < y.ids)
    || (x.inline == y.inline && x.ids == y.ids && x.classes < y.classes)
    || (x.inline == y.inline && x.ids == y.ids && x.classes == y.classes && x.tags < y.tags)
  }

  /** `SpecLess` is a strict total order: irreflexive, transitive and total. */
  lemma SpecLessStrictTotal(x: Specificity, y: Specificity, z: Specificity)
    ensures !SpecLess(x, x)
    ensures SpecLess(x, y) && SpecLess(y, z) ==> SpecLess(x, z)
    ensures x == y || SpecLess(x, y) || SpecLess(y, x)
    ensures !(SpecLess(x, y) && SpecLess(y, x))
  {
  }

  /** The larger of two specificities under the derived order. */
  function SpecMax(x: Specificity, y: Specificity): (m: Specificity)
    ensures m == x || m == y
    ensures !SpecLess(m, x) && !SpecLess(m, y)
  {
    if SpecLess(x, y) then y else x
  }

  /** A compound ("simple") selector: optional id, optional tag and a list of classes. */
  datatype Selector = Selector(id: Option<string>, tagName: Option<string>, classes: seq<string>)

  function Presence<T>(o: Option<T>): nat {
    if o.Some? then 1 else 0
  }

  /** `Selector::specificity`. */
  function SelectorSpecificity(s: Selector): (r: Specificity)
    ensures r.inline == 0
    ensures r.ids == (if s.id.Some? then 1 else 0)
    ensures r.classes == |s.classes|
    ensures r.tags == (if s.tagName.Some? then 1 else 0)
  {
    Specificity(0, Presence(s.id), |s.classes|, Presence(s.tagName))
  }

  datatype Combinator = Descendant | Child | AdjacentSibling | GeneralSibling

  /** Compound selectors joined by combinators. */
  datatype ComplexSelector = ComplexSelector(inner: seq<Selector>, combinators: seq<Combinator>)

  /** One step of the fold in `ComplexSelector::specificity`, exactly as written. */
  function FoldStep(r: Specificity, v: Specificity): Specificity {
    Specificity(0, r.inline + v.inline, r.ids + v.ids, r.classes + v.classes)
  }

  function FoldSpecificity(acc: Specificity, sels: seq<Selector>): Specificity
    decreases |sels|
  {
    if sels == [] then acc
    else FoldSpecificity(FoldStep(acc, SelectorSpecificity(sels[0])), sels[1..])
  }

  /** Number of compounds carrying an id. */
  function IdCount(sels: seq<Selector>): nat
    decreases |sels|
  {
    if sels == [] then 0 else Presence(sels[0].id) + IdCount(sels[1..])
  }

  /** Number of class names over all compounds, repeats counted. */
  function ClassCount(sels: seq<Selector>): nat
    decreases |sels|
  {
    if sels == [] then 0 else |sels[0].classes| + ClassCount(sels[1..])
  }

  /** Number of compounds carrying a tag name. */
  function TagCount(sels: seq<Selector>): nat
    decreases |sels|
  {
    if sels == [] then 0 else Presence(sels[0].tagName) + TagCount(sels[1..])
  }

  /**
   * What the literal fold computes from an accumulator `(0, 0, x, y)`: the ids of the last
   * compound, and the classes of the last compound plus the id of the one before it.
   */
  function ShiftedFold(x: nat, y: nat, sels: seq<Selector>): Specificity {
    if sels == [] then Specificity(0, 0, x, y)
    else
      var last := sels[|sels| - 1];
      var before := if |sels| == 1 then x else Presence(sels[|sels| - 2].id);
      Specificity(0, 0, Presence(last.id), before + |last.classes|)
  }

  lemma {:induction false} FoldClosedForm(x: nat, y: nat, sels: seq<Selector>)
    ensures FoldSpecificity(Specificity(0, 0, x, y), sels) == ShiftedFold(x, y, sels)
    decreases |sels|
  {
    if sels != [] {
      var v := SelectorSpecificity(sels[0]);
      assert FoldStep(Specificity(0, 0, x, y), v) == Specificity(0, 0, v.ids, x + v.classes);
      FoldClosedForm(v.ids, x + v.classes, sels[1..]);
      var rest := sels[1..];
      if |rest| >= 2 {
        assert rest[|rest| - 2] == sels[|sels| - 2];
      }
    }
  }

  /**
   * `ComplexSelector::specificity` as written.  The fold shifts every slot one place to
   * the right and does not accumulate: only the last compound's id and classes and the
   * id of the compound before it survive, and tags never count.
   */
  function ComplexSpecificity(sel: ComplexSelector): (r: Specificity)
    ensures r.inline == 0 && r.ids == 0
    ensures sel.inner == [] ==> r == Specificity(0, 0, 0, 0)
    ensures sel.inner != [] ==>
      var n := |sel.inner|;
      && r.classes == Presence(sel.inner[n - 1].id)
      && r.tags == |sel.inner[n - 1].classes| + (if n >= 2 then Presence(sel.inner[n - 2].id) else 0)
  {
    FoldClosedForm(0, 0, sel.inner);
    FoldSpecificity(Specificity(0, 0, 0, 0), sel.inner)
  }

  /** A tag-only compound gets specificity zero, although `Selector::specificity` counts its tag. */
  lemma ComplexSpecificityDropsTags(tag: string)
    ensures SelectorSpecificity(Selector(None, Some(tag), [])) == Specificity(0, 0, 0, 1)
    ensures ComplexSpecificity(ComplexSelector([Selector(None, Some(tag), [])], []))
         == Specificity(0, 0, 0, 0)
  {
  }

  /** `h1 .a` and `.a` get the same specificity as written, though the first has an extra tag. */
  lemma ComplexSpecificityIgnoresAncestors()
    ensures ComplexSpecificity(ComplexSelector([Selector(None, Some("h1"), []), Selector(None, None, ["a"])], [Descendant]))
         == ComplexSpecificity(ComplexSelector([Selector(None, None, ["a"])], []))
  {
  }

  /** The evidently intended fold step: componentwise sum of the four slots. */
  function IntendedFoldStep(r: Specificity, v: Specificity): Specificity {
    Specificity(r.inline + v.inline, r.ids + v.ids, r.classes + v.classes, r.tags + v.tags)
  }

  function IntendedFold(acc: Specificity, sels: seq<Selector>): Specificity
    decreases |sels|
  {
    if sels == [] then acc
    else IntendedFold(IntendedFoldStep(acc, SelectorSpecificity(sels[0])), sels[1..])
  }

  lemma {:induction false} IntendedFoldClosedForm(x: nat, y: nat, z: nat, sels: seq<Selector>)
    ensures IntendedFold(Specificity(0, x, y, z), sels)
         == Specificity(0, x + IdCount(sels), y + ClassCount(sels), z + TagCount(sels))
    decreases |sels|
  {
    if sels != [] {
      var v := SelectorSpecificity(sels[0]);
      IntendedFoldClosedForm(x + v.ids, y + v.classes, z + v.tags, sels[1..]);
    }
  }

  /** The corrected complex specificity: ids, classes and tags summed over all compounds. */
  function IntendedComplexSpecificity(sel: ComplexSelector): (r: Specificity)
    ensures r == Specificity(0, IdCount(sel.inner), ClassCount(sel.inner), TagCount(sel.inner))
  {
    IntendedFoldClosedForm(0, 0, 0, sel.inner);
    IntendedFold(Specificity(0, 0, 0, 0), sel.inner)
  }

  /** For a single compound the corrected fold agrees with `Selector::specificity`. */
  lemma IntendedAgreesOnOneCompound(s: Selector, cs: seq<Combinator>)
    ensures IntendedComplexSpecificity(ComplexSelector([s], cs)) == SelectorSpecificity(s)
  {
    assert [s][1..] == [];
    assert IdCount([s]) == Presence(s.id);
    assert ClassCount([s]) == |s.classes|;
    assert TagCount([s]) == Presence(s.tagName);
  }

  /**
   * Appending a compound never lowers the corrected specificity, and an extra tag raises
   * it; the literal fold has neither property (see `ComplexSpecificityIgnoresAncestors`).
   */
  lemma {:induction false} IntendedCountsEveryCompound(s: Selector, sels: seq<Selector>)
    ensures IdCount([s] + sels) == Presence(s.id) + IdCount(sels)
    ensures ClassCount([s] + sels) == |s.classes| + ClassCount(sels)
    ensures TagCount([s] + sels) == Presence(s.tagName) + TagCount(sels)
  {
    assert ([s] + sels)[1..] == sels;
  }

  lemma ClassCountsAsWritten(w: Selector)
    requires |w.classes| > 0
    ensures SpecLess(Specificity(0, 0, 0, 0), ComplexSpecificity(ComplexSelector([w], [])))
  {
    var c := ComplexSelector([w], []);
    assert |c.inner| == 1 && c.inner[0] == w;
  }

  /** A compound with a class outranks a compound with only a tag, both as written and as intended. */
  lemma ClassOutranksTag(tag: string, withClass: Selector)
    requires |withClass.classes| > 0
    ensures SpecLess(ComplexSpecificity(ComplexSelector([Selector(None, Some(tag), [])], [])),
                     ComplexSpecificity(ComplexSelector([withClass], [])))
    ensures SpecLess(IntendedComplexSpecificity(ComplexSelector([Selector(None, Some(tag), [])], [])),
                     IntendedComplexSpecificity(ComplexSelector([withClass], [])))
  {
    ComplexSpecificityDropsTags(tag);
    ClassCountsAsWritten(withClass);
    IntendedAgreesOnOneCompound(Selector(None, Some(tag), []), []);
    IntendedAgreesOnOneCompound(withClass, []);
  }

  /** A CSS length unit. */
  datatype Unit = Px | Pt | Q | Mm | Cm | Pc | In | Em | Rem | Vh | Vw | Tb | Percent | Unitless | Invalid

  /** The derived `Display`: the variant name, except `%` and the empty string. */
  function UnitName(u: Unit): string {
    match u
    case Px => "Px"
    case Pt => "Pt"
    case Q => "Q"
    case Mm => "Mm"
    case Cm => "Cm"
    case Pc => "Pc"
    case In => "In"
    case Em => "Em"
    case Rem => "Rem"
    case Vh => "Vh"
    case Vw => "Vw"
    case Tb => "Tb"
    case Percent => "%"
    case Unitless => ""
    case Invalid => "Invalid"
  }

  function LowerChar(c: char): char {
    if 'A' <= c <= 'Z' then (c as int + 32) as char else c
  }

  /**
   * Lower-casing, on the ASCII letters only. `str::to_lowercase` also folds letters beyond
   * ASCII, but for parsing units the two agree: see NonAsciiIsInvalid and KelvinFoldIsInvalid.
   */
  function Lower(s: string): (r: string)
    ensures |r| == |s|
    ensures forall i :: 0 <= i < |s| ==> r[i] == LowerChar(s[i])
  {
    seq(|s|, i requires 0 <= i < |s| => LowerChar(s[i]))
  }

  /** `Unit::from_str` as written: it never fails and has no entry for `cm`. */
  function UnitFromStr(s: string): (r: Unit)
    ensures r != Cm
    ensures r == Unitless <==> s == ""
  {
    var v := Lower(s);
    if v == "px" then Px
    else if v == "pt" then Pt
    else if v == "q" then Q
    else if v == "mm" then Mm
    else if v == "pc" then Pc
    else if v == "in" then In
    else if v == "em" then Em
    else if v == "rem" then Rem
    else if v == "vh" then Vh
    else if v == "vw" then Vw
    else if v == "tb" then Tb
    else if v == "%" then Percent
    else if v == "" then Unitless
    else Invalid
  }

  lemma LowerIdempotent(s: string)
    ensures Lower(Lower(s)) == Lower(s)
  {
  }

  /** Parsing ignores case: a string and its lower-cased form give the same unit. */
  lemma UnitFromStrCaseInsensitive(s: string, t: string)
    requires Lower(s) == Lower(t)
    ensures UnitFromStr(s) == UnitFromStr(t)
    ensures UnitFromStr(s) == UnitFromStr(Lower(s))
  {
    LowerIdempotent(s);
  }

  /**
   * A character beyond ASCII survives ASCII lower-casing, and no unit name holds one, so such
   * a string parses to `Invalid`.
   */
  lemma NonAsciiIsInvalid(s: string, i: int)
    requires 0 <= i < |s| && s[i] as int > 127
    ensures UnitFromStr(s) == Invalid
  {
    assert Lower(s)[i] == s[i];
  }

  /**
   * The one character beyond ASCII that Unicode lower-cases to an ASCII letter is the KELVIN
   * SIGN, which becomes `k`; no unit name holds a `k`, so the fold leaves the string `Invalid`.
   */
  lemma KelvinFoldIsInvalid(s: string, i: int)
    requires 0 <= i < |s| && s[i] == '\U{212A}'
    ensures UnitFromStr(s) == Invalid
    ensures UnitFromStr(s[i := 'k']) == Invalid
  {
    NonAsciiIsInvalid(s, i);
    assert Lower(s[i := 'k'])[i] == 'k';
  }

  /** Parsing inverts `Display` for every unit but `Cm`. */
  lemma UnitRoundTrip(u: Unit)
    requires u != Cm
    ensures UnitFromStr(UnitName(u)) == u
  {
    if u.Px? || u.Pt? || u.Q? || u.Mm? || u.Pc? || u.In? {
      AbsoluteUnitRoundTrip(u);
    } else if u.Em? || u.Rem? || u.Vh? || u.Vw? || u.Tb? {
      RelativeUnitRoundTrip(u);
    } else {
      SpecialUnitRoundTrip(u);
    }
  }

  lemma AbsoluteUnitRoundTrip(u: Unit)
    requires u.Px? || u.Pt? || u.Q? || u.Mm? || u.Pc? || u.In?
    ensures UnitFromStr(UnitName(u)) == u
  {
    match u
    case Px => assert Lower("Px") == "px";
    case Pt => assert Lower("Pt") == "pt";
    case Q => assert Lower("Q") == "q";
    case Mm => assert Lower("Mm") == "mm";
    case Pc => assert Lower("Pc") == "pc";
    case In => assert Lower("In") == "in";
  }

  lemma RelativeUnitRoundTrip(u: Unit)
    requires u.Em? || u.Rem? || u.Vh? || u.Vw? || u.Tb?
    ensures UnitFromStr(UnitName(u)) == u
  {
    match u
    case Em => assert Lower("Em") == "em";
    case Rem => assert Lower("Rem") == "rem";
    case Vh => assert Lower("Vh") == "vh";
    case Vw => assert Lower("Vw") == "vw";
    case Tb => assert Lower("Tb") == "tb";
  }

  lemma SpecialUnitRoundTrip(u: Unit)
    requires u.Percent? || u.Unitless? || u.Invalid?
    ensures UnitFromStr(UnitName(u)) == u
  {
    match u
    case Percent => assert Lower("%") == "%";
    case Unitless => assert Lower("") == "";
    case Invalid => assert Lower("Invalid") == "invalid";
  }

  /** The centimetre unit is not recognised: `cm`, `CM` and its own `Display` give `Invalid`. */
  lemma CentimetreIsInvalid()
    ensures UnitFromStr("cm") == Invalid
    ensures UnitFromStr("CM") == Invalid
    ensures UnitFromStr(UnitName(Cm)) == Invalid
  {
    assert Lower("cm") == "cm";
    assert Lower("CM") == "cm";
    assert Lower("Cm") == "cm";
  }

  /** The evidently intended `Unit::from_str`, with the missing `cm` arm. */
  function IntendedUnitFromStr(s: string): Unit {
    if Lower(s) == "cm" then Cm else UnitFromStr(s)
  }

  /** The corrected parser inverts `Display` for every unit. */
  lemma IntendedUnitRoundTrip(u: Unit)
    ensures IntendedUnitFromStr(UnitName(u)) == u
  {
    if u == Cm {
      assert Lower("Cm") == "cm";
    } else {
      UnitRoundTrip(u);
      match u
      case Px => assert Lower("Px") != "cm";
      case Pt => assert Lower("Pt") != "cm";
      case Q =>
      case Mm => assert Lower("Mm")[0] == 'm';
      case Pc => assert Lower("Pc")[0] == 'p';
      case In => assert Lower("In")[0] == 'i';
      case Em => assert Lower("Em")[0] == 'e';
      case Rem =>
      case Vh => assert Lower("Vh")[0] == 'v';
      case Vw => assert Lower("Vw")[0] == 'v';
      case Tb => assert Lower("Tb")[0] == 't';
      case Percent =>
      case Unitless =>
      case Invalid =>
    }
  }

  /** A byte, `u8`. */
  type Byte = x: int | 0 <= x < 256

  datatype Color = Color(r: Byte, g: Byte, b: Byte, a: Byte)

  const HexDigits: string := "0123456789abcdef"

  /** `{:02x}` of one byte: two lower-case hexadecimal digits. */
  function Hex2(x: Byte): (s: string)
    ensures |s| == 2 && s[0] in HexDigits && s[1] in HexDigits
  {
    [HexDigits[x / 16], HexDigits[x % 16]]
  }

  /** `Display` for `Color`: `#rrggbbaa`. */
  function ColorToString(c: Color): (s: string)
    ensures |s| == 9 && s[0] == '#'
    ensures forall i :: 1 <= i < 9 ==> s[i] in HexDigits
  {
    "#" + Hex2(c.r) + Hex2(c.g) + Hex2(c.b) + Hex2(c.a)
  }

  /** Reference decoding of a lower-case hexadecimal digit. */
  function HexValue(ch: char): (v: nat)
    ensures v < 16
  {
    if '0' <= ch <= '9' then ch as int - '0' as int
    else if 'a' <= ch <= 'f' then ch as int - 'a' as int + 10
    else 0
  }

  lemma HexDigitRoundTrip(d: nat)
    requires d < 16
    ensures HexValue(HexDigits[d]) == d
  {
  }

  /** Reads back a byte from two hexadecimal digits. */
  function DecodeByte(hi: char, lo: char): Byte {
    HexValue(hi) * 16 + HexValue(lo)
  }

  lemma Hex2RoundTrip(x: Byte)
    ensures DecodeByte(Hex2(x)[0], Hex2(x)[1]) == x
  {
    HexDigitRoundTrip(x / 16);
    HexDigitRoundTrip(x % 16);
  }

  /** Reads back the four bytes of a `#rrggbbaa` string. */
  function DecodeColor(s: string): Color
    requires |s| == 9
  {
    Color(DecodeByte(s[1], s[2]), DecodeByte(s[3], s[4]), DecodeByte(s[5], s[6]), DecodeByte(s[7], s[8]))
  }

  /** The colour string loses nothing: decoding it gives back the colour. */
  lemma ColorRoundTrip(c: Color)
    ensures DecodeColor(ColorToString(c)) == c
  {
    var s := ColorToString(c);
    var hr, hg, hb, ha := Hex2(c.r), Hex2(c.g), Hex2(c.b), Hex2(c.a);
    assert s == "#" + hr + hg + hb + ha;
    assert s[1] == hr[0] && s[2] == hr[1];
    assert s[3] == hg[0] && s[4] == hg[1];
    assert s[5] == hb[0] && s[6] == hb[1];
    assert s[7] == ha[0] && s[8] == ha[1];
    Hex2RoundTrip(c.r);
    Hex2RoundTrip(c.g);
    Hex2RoundTrip(c.b);
    Hex2RoundTrip(c.a);
  }

  /** A dimension; the `f64` magnitude is kept as a real and never computed with. */
  datatype Dimension = Dimension(value: real, unit: Unit)

  datatype Value = Keyword(keyword: string) | DimensionValue(dimension: Dimension) | ColorValue(color: Color)

  datatype PropertyValue = PropertyValue(value: Value, important: bool)

  datatype Rule = Rule(selector: ComplexSelector, props: map<string, PropertyValue>)

  datatype Stylesheet = Stylesheet(rules: seq<Rule>, origin: Origin)

  /** `Stylesheet::new`: no rule list means an empty one. */
  function NewStylesheet(rules: Option<seq<Rule>>, origin: Origin): (s: Stylesheet)
    ensures s.origin == origin
    ensures rules.None? ==> s.rules == []
    ensures rules.Some? ==> s.rules == rules.value
  {
    Stylesheet(rules.GetOr([]), origin)
  }
}
