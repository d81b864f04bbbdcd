/** The HMR demo counter: an unbounded integer that the increase, decrease and reset
    buttons change, displayed as its decimal text in a colour that depends on its sign
    and size. */
module Counter {
  import opened Wrappers
  import Decimal

  datatype Counter = Counter(count: int)

  /** The CSS variable the display is coloured with. */
  datatype Color = SuccessColor | ErrorColor | PrimaryColor

  datatype Click = Increase | Decrease | Reset

  /** What the counter display shows. */
  datatype View = View(text: string, color: Color)

  function New(): (c: Counter)
    ensures c.count == 0
  {
    Counter(0)
  }

  function Increment(c: Counter): (r: Counter)
    ensures r.count == c.count + 1
  {
    Counter(c.count + 1)
  }

  function Decrement(c: Counter): (r: Counter)
    ensures r.count == c.count - 1
  {
    Counter(c.count - 1)
  }

  function ResetCount(c: Counter): (r: Counter)
    ensures r == New()
  {
    Counter(0)
  }

  /** Decreasing undoes increasing and vice versa. */
  lemma IncrementDecrementInverse(c: Counter)
    ensures Decrement(Increment(c)) == c && Increment(Decrement(c)) == c
  {
  }

  /** The colour classification: above ten, below zero, or in between. */
  function ColorOf(count: int): (col: Color)
    ensures col == SuccessColor <==> count > 10
    ensures col == ErrorColor <==> count < 0
    ensures col == PrimaryColor <==> 0 <= count <= 10
  {
    if count > 10 then SuccessColor else if count < 0 then ErrorColor else PrimaryColor
  }

  /** `render`: the canonical decimal text of the count, which reads back as the count,
      and the colour that classifies it. */
  function Render(c: Counter): (v: View)
    ensures c.count >= 0 ==> v.text == Decimal.NatToString(c.count)
    ensures c.count < 0 ==> v.text == "-" + Decimal.NatToString(-c.count)
    ensures Decimal.ParseInt(v.text) == Some(c.count)
    ensures v.color == ColorOf(c.count)
  {
    Decimal.IntRoundTrip(c.count);
    View(Decimal.IntToString(c.count), ColorOf(c.count))
  }

  /** Distinct counts are displayed differently. */
  lemma RenderInjective(a: Counter, b: Counter)
    ensures Render(a).text == Render(b).text ==> a == b
  {
    Decimal.IntRoundTrip(a.count);
    Decimal.IntRoundTrip(b.count);
  }

  function Apply(c: Counter, click: Click): Counter {
    match click
    case Increase => Increment(c)
    case Decrease => Decrement(c)
    case Reset => ResetCount(c)
  }

  function ApplyAll(c: Counter, clicks: seq<Click>): Counter
    decreases |clicks|
  {
    if |clicks| == 0 then c else ApplyAll(Apply(c, clicks[0]), clicks[1..])
  }

  function CountClicks(clicks: seq<Click>, kind: Click): nat {
    if |clicks| == 0 then 0
    else (if clicks[0] == kind then 1 else 0) + CountClicks(clicks[1..], kind)
  }

  /** Without a reset, the count moves by the number of increases minus the number of
      decreases, with no bound in either direction. */
  lemma {:induction false} NetClicks(c: Counter, clicks: seq<Click>)
    requires Reset !in clicks
    ensures ApplyAll(c, clicks).count == c.count + CountClicks(clicks, Increase) - CountClicks(clicks, Decrease)
    decreases |clicks|
  {
    if |clicks| > 0 {
      assert Reset !in clicks[1..];
      NetClicks(Apply(c, clicks[0]), clicks[1..]);
    }
  }

  /** A reset forgets everything before it. */
  lemma {:induction false} ResetForgets(c: Counter, before: seq<Click>, after: seq<Click>)
    ensures ApplyAll(c, before + [Reset] + after) == ApplyAll(New(), after)
    decreases |before|
  {
    if |before| == 0 {
      assert before + [Reset] + after == [Reset] + after;
      assert ([Reset] + after)[1..] == after;
    } else {
      assert (before + [Reset] + after)[1..] == before[1..] + [Reset] + after;
      ResetForgets(Apply(c, before[0]), before[1..], after);
    }
  }

  /** `preserveState` across a hot module replacement: the new instance keeps the count.
      The views compared here are the pure `Render` of each count; the instance made by
      `Object.create` skips the constructor and has no element to render into. */
  function PreserveState(previous: Counter): (next: Counter)
    ensures next.count == previous.count
    ensures Render(next) == Render(previous)
  {
    Counter(previous.count)
  }
}
