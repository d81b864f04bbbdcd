/** The document-level effects of the playground's header and quick-tool listeners: the
    theme button flips the root's `data-theme` attribute, and the colour pickers and the
    border-radius slider write CSS custom properties on the root's inline style. */
module PlaygroundUi {
  import opened Wrappers
  import Theme
  import Decimal

  /** The parts of the document the listeners touch: the `data-theme` attribute of the
      root element and its inline style's custom properties. */
  datatype Doc = Doc(theme: Option<string>, style: map<string, string>)

  const BackgroundProperty: string := "--color-background"
  const TextProperty: string := "--color-text"
  const RadiusMdProperty: string := "--border-radius-md"
  const RadiusLgProperty: string := "--border-radius-lg"

  /** An `input` event from one of the three quick tools. The slider is a range input, so
      its value is always the decimal text of a whole number, held here as that number. */
  datatype ToolInput =
    | BackgroundColor(color: string)
    | TextColor(color: string)
    | BorderRadius(value: nat)

  /** A click on the `#theme-toggle` button. */
  function ClickThemeToggle(d: Doc): (r: Doc)
    ensures r.style == d.style
    ensures r.theme == Some(Theme.Toggle(d.theme))
    ensures r.theme == Some(Theme.Light) <==> d.theme == Some(Theme.Dark)
  {
    d.(theme := Some(Theme.Toggle(d.theme)))
  }

  function Px(n: nat): (s: string)
    ensures |s| > 2 && s[|s| - 2..] == "px"
  {
    Decimal.NatToString(n) + "px"
  }

  /** The numeric part of a pixel length such as `Px` writes: `parseInt` of its text. */
  function PxValue(s: string): nat
    requires |s| >= 2 && Decimal.AllDigits(s[..|s| - 2])
  {
    Decimal.DigitsValue(s[..|s| - 2])
  }

  /** Reading back a written pixel length gives the number written. */
  lemma PxRoundTrip(n: nat)
    ensures Decimal.AllDigits(Px(n)[..|Px(n)| - 2])
    ensures PxValue(Px(n)) == n
  {
    assert Px(n)[..|Px(n)| - 2] == Decimal.NatToString(n);
    Decimal.NatRoundTrip(n);
  }

  /** The custom properties one tool input writes. */
  function Written(input: ToolInput): set<string> {
    match input
    case BackgroundColor(_) => {BackgroundProperty}
    case TextColor(_) => {TextProperty}
    case BorderRadius(_) => {RadiusMdProperty, RadiusLgProperty}
  }

  /** The effect of one tool input on the document. */
  function ApplyToolInput(d: Doc, input: ToolInput): (r: Doc)
    ensures r.theme == d.theme
    ensures r.style.Keys == d.style.Keys + Written(input)
    ensures forall p :: p in d.style && p !in Written(input) ==> r.style[p] == d.style[p]
    ensures input.BackgroundColor? ==> r.style[BackgroundProperty] == input.color
    ensures input.TextColor? ==> r.style[TextProperty] == input.color
    ensures input.BorderRadius? ==>
              && r.style[RadiusMdProperty] == Px(input.value)
              && r.style[RadiusLgProperty] == Px(input.value + 4)
  {
    match input
    case BackgroundColor(c) => d.(style := d.style[BackgroundProperty := c])
    case TextColor(c) => d.(style := d.style[TextProperty := c])
    case BorderRadius(v) =>
      d.(style := d.style[RadiusMdProperty := Px(v)][RadiusLgProperty := Px(v + 4)])
  }

  /** After a slider input the large radius is always four pixels more than the medium one. */
  lemma RadiusLgIsMdPlusFour(d: Doc, v: nat)
    ensures var r := ApplyToolInput(d, BorderRadius(v));
            var md := r.style[RadiusMdProperty];
            var lg := r.style[RadiusLgProperty];
            && Decimal.AllDigits(md[..|md| - 2]) && Decimal.AllDigits(lg[..|lg| - 2])
            && PxValue(md) == v
            && PxValue(lg) == PxValue(md) + 4
  {
    PxRoundTrip(v);
    PxRoundTrip(v + 4);
  }
}
