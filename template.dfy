/**
 * Filling a rule's replacement template with the captures of one match:
 * for k = 1, 2, ... up to the number of captures, every `$k` of the
 * partly filled template is replaced by the k-th capture, with a global
 * replace whose pattern is the literal `$k`.
 */
module Template {
  import opened Text

  function DigitChar(d: nat): char
    requires d < 10
  {
    "0123456789"[d]
  }

  /** The decimal numeral of `n`, as JavaScript prints a number. */
  function Decimal(n: nat): (r: string)
    ensures |r| >= 1
    ensures forall i :: 0 <= i < |r| ==> '0' <= r[i] <= '9'
  {
    if n < 10 then [DigitChar(n)] else Decimal(n / 10) + [DigitChar(n % 10)]
  }

  /** The placeholder for the k-th capture: `$` followed by the numeral of k. */
  function Placeholder(k: nat): (r: string)
    ensures |r| >= 2 && r[0] == '$'
    ensures '$' !in r[1..]
  {
    "$" + Decimal(k)
  }

  /** The value of a decimal digit. */
  function DigitValue(c: char): nat
    requires '0' <= c <= '9'
  {
    c as int - '0' as int
  }

  /** The number a string of decimal digits denotes, most significant first. */
  function DigitsValue(s: string): nat
    requires forall i :: 0 <= i < |s| ==> '0' <= s[i] <= '9'
  {
    if s == [] then 0 else 10 * DigitsValue(s[..|s| - 1]) + DigitValue(s[|s| - 1])
  }

  /** Each digit character reads back as its value. */
  lemma DigitRoundTrip(d: nat)
    requires d < 10
    ensures '0' <= DigitChar(d) <= '9' && DigitValue(DigitChar(d)) == d
  {
  }

  /**
   * The numeral reads back as the number it was made from, and it has no
   * leading zero: it is the numeral JavaScript prints.
   */
  lemma {:induction false} DecimalValue(n: nat)
    ensures DigitsValue(Decimal(n)) == n
    ensures Decimal(n)[0] == '0' <==> n == 0
  {
    var r := Decimal(n);
    if n < 10 {
      DigitRoundTrip(n);
    } else {
      DecimalValue(n / 10);
      DigitRoundTrip(n % 10);
      assert r[..|r| - 1] == Decimal(n / 10);
      assert r[0] == Decimal(n / 10)[0];
    }
  }

  /** A placeholder names its capture: the digits after `$` read back as `k`. */
  lemma PlaceholderValue(k: nat)
    ensures DigitsValue(Placeholder(k)[1..]) == k
  {
    assert Placeholder(k)[1..] == Decimal(k);
    DecimalValue(k);
  }

  /** The template after the first `|caps|` placeholders have been filled, in ascending order. */
  function Fill(template: string, caps: seq<string>): string
    decreases |caps|
  {
    if caps == [] then template
    else ReplaceAll(Fill(template, caps[..|caps| - 1]), Placeholder(|caps|), caps[|caps| - 1])
  }

  /** The parser's loop over the captures, reassigning the replacement text once per capture. */
  method FillTemplate(template: string, caps: seq<string>) returns (replacement: string)
    ensures replacement == Fill(template, caps)
  {
    replacement := template;
    for i := 0 to |caps|
      invariant replacement == Fill(template, caps[..i])
    {
      var placeholder := Placeholder(i + 1);
      replacement := ReplaceAll(replacement, placeholder, caps[i]);
      assert caps[..i + 1][..i] == caps[..i];
    }
    assert caps[..|caps|] == caps;
  }

  /** A template without `$` comes back as it is, whatever the captures. */
  lemma {:induction false} FillPlain(template: string, caps: seq<string>)
    requires '$' !in template
    ensures Fill(template, caps) == template
    decreases |caps|
  {
    if caps != [] {
      FillPlain(template, caps[..|caps| - 1]);
      ReplaceAllAbsent(template, Placeholder(|caps|), caps[|caps| - 1]);
    }
  }

  lemma PlaceholderOneTwo()
    ensures Placeholder(1) == "$1" && Placeholder(2) == "$2"
  {
  }

  /** `$1` is left alone by the `$2` pass and `$2` by the `$1` pass. */
  lemma OtherPlaceholderKept(c: string)
    ensures ReplaceAll("$2", "$1", c) == "$2"
    ensures ReplaceAll("$1", "$2", c) == "$1"
  {
    OtherSlot("$2", "$1", c);
    OtherSlot("$1", "$2", c);
  }

  /** A placeholder is replaced by the capture, taken as it is. */
  lemma PlaceholderReplaced(p: string, c: string)
    requires |p| > 0
    ensures ReplaceAll(p, p, c) == c
  {
    assert p[..|p|] == p && p[|p|..] == [];
  }

  /**
   * A template with one `$1` between `$`-free markup, filled with one
   * capture: the capture is inserted verbatim, once, and the markup is kept.
   */
  lemma FillOneSlot(x: string, y: string, c: string)
    requires '$' !in x && '$' !in y
    ensures Fill(x + "$1" + y, [c]) == x + c + y
  {
    var t := x + "$1" + y;
    PlaceholderOneTwo();
    assert Fill(t, [c]) == ReplaceAll(t, "$1", c) by {
      assert [c][..0] == [];
    }
    SplitAroundSlot(x, y, "$1", c);
  }

  /** The global replace of a placeholder `p` on `x + p + y`, both sides free of `$`. */
  lemma SplitAroundSlot(x: string, y: string, p: string, c: string)
    requires '$' !in x && '$' !in y
    requires |p| == 2 && p[0] == '$' && p[1] != '$'
    ensures ReplaceAll(x + p + y, p, c) == x + c + y
  {
    assert NoStraddle(x, p + y, p) by {
      forall k: nat | k < |p| ensures !StraddlesAt(x, p + y, p, k) {
        if k == 1 && |x| >= 1 {
          assert x[|x| - 1] in x;
        }
      }
    }
    assert NoStraddle(p, y, p);
    ReplaceAllConcat(p, y, p, c);
    assert x + p + y == x + (p + y);
    ReplaceAllConcat(x, p + y, p, c);
    ReplaceAllAbsent(x, p, c);
    ReplaceAllAbsent(y, p, c);
    PlaceholderReplaced(p, c);
  }

  /**
   * A template with one `$1` and two captures (the heading and quote
   * rules): the `$2` pass runs over the partly filled template, so every
   * `$2` that capture 1 brought in is replaced by capture 2.
   */
  lemma FillFirstOfTwo(x: string, y: string, c1: string, c2: string)
    requires '$' !in x && '$' !in y
    requires y == [] || y[0] != '2'
    ensures Fill(x + "$1" + y, [c1, c2]) == x + ReplaceAll(c1, "$2", c2) + y
  {
    PlaceholderOneTwo();
    assert [c1, c2][..1] == [c1];
    FillOneSlot(x, y, c1);
    assert Fill(x + "$1" + y, [c1, c2]) == ReplaceAll(x + c1 + y, "$2", c2);
    TwoPassMarkup(x, y, c1, "$2", c2);
  }

  /** A `$k` pass over the markup with a capture inserted touches only the capture. */
  lemma TwoPassMarkup(x: string, y: string, c1: string, p: string, c2: string)
    requires '$' !in x && '$' !in y
    requires |p| == 2 && p[0] == '$' && (y == [] || y[0] != p[1])
    ensures ReplaceAll(x + c1 + y, p, c2) == x + ReplaceAll(c1, p, c2) + y
  {
    var cy := c1 + y;
    assert x + c1 + y == x + cy;
    ClearJunctions(x, c1, y, p);
    ReplaceAllConcat(c1, y, p, c2);
    ReplaceAllAbsent(y, p, c2);
    ReplaceAllConcat(x, cy, p, c2);
    ReplaceAllAbsent(x, p, c2);
  }

  /** Junctions around an arbitrary text `m` after `$`-free markup cannot hold a `$k` that straddles. */
  lemma ClearJunctions(x: string, m: string, y: string, p: string)
    requires '$' !in x
    requires |p| == 2 && p[0] == '$'
    requires y == [] || y[0] != p[1]
    ensures NoStraddle(x, m + y, p) && NoStraddle(m, y, p)
  {
    forall k: nat | k < |p| ensures !StraddlesAt(x, m + y, p, k) {
      if k == 1 && |x| >= 1 {
        assert x[|x| - 1] in x;
      }
    }
    forall k: nat | k < |p| ensures !StraddlesAt(m, y, p, k) {
      if k == 1 && |m| >= 1 && |y| >= 1 {
        assert y[..1] == [y[0]];
      }
    }
  }

  /** A global replace over three pieces whose two junctions are clean. */
  lemma ReplaceAllThree(a: string, m: string, b: string, p: string, c: string)
    requires |p| > 0 && NoStraddle(a, m + b, p) && NoStraddle(m, b, p)
    ensures ReplaceAll(a + m + b, p, c) == ReplaceAll(a, p, c) + ReplaceAll(m, p, c) + ReplaceAll(b, p, c)
  {
    var mb := m + b;
    assert a + m + b == a + mb;
    ReplaceAllConcat(m, b, p, c);
    ReplaceAllConcat(a, mb, p, c);
  }

  /** One two-character placeholder is not touched by the pass for another. */
  lemma OtherSlot(q: string, p: string, c: string)
    requires |p| == 2 && |q| == 2 && q != p && q[1] != p[0]
    ensures ReplaceAll(q, p, c) == q
  {
    assert q[..2] == q;
    assert q[1..] == [q[1]];
    assert ReplaceAll(q[1..], p, c) == q[1..];
    assert [q[0]] + q[1..] == q;
  }

  /**
   * A template with `$1` before `$2` (the fenced block with a language tag):
   * capture 1 lands where `$1` was, with its own `$2`s replaced by capture
   * 2, and capture 2 lands where `$2` was, verbatim.
   */
  lemma FillTwoSlots(x: string, y: string, z: string, c1: string, c2: string)
    requires '$' !in x && '$' !in y && '$' !in z
    requires y == [] || y[0] != '2'
    ensures Fill(x + "$1" + y + "$2" + z, [c1, c2]) == x + ReplaceAll(c1, "$2", c2) + y + c2 + z
  {
    var tail := y + "$2" + z;
    assert x + "$1" + y + "$2" + z == x + "$1" + tail;
    SlotKept(y, z, "$1", "$2", c1);
    FirstPass(x, tail, c1);
    FillSecond(x + "$1" + tail, c1, c2);
    SecondPass(x, y, z, c1, c2, "$2");
  }

  /** Filling two captures is the `$2` pass over the template filled with the first. */
  lemma FillSecond(t: string, c1: string, c2: string)
    ensures Fill(t, [c1, c2]) == ReplaceAll(Fill(t, [c1]), "$2", c2)
  {
    PlaceholderOneTwo();
    assert [c1, c2][..1] == [c1];
  }

  /** The `$2` pass over `x + c1 + y + $2 + z`. */
  lemma SecondPass(x: string, y: string, z: string, c1: string, c2: string, p: string)
    requires '$' !in x && '$' !in y && '$' !in z
    requires |p| == 2 && p[0] == '$' && p[1] == '2'
    requires y == [] || y[0] != '2'
    ensures ReplaceAll(x + c1 + (y + p + z), p, c2) == x + ReplaceAll(c1, p, c2) + y + c2 + z
  {
    SlotTailStart(y, p, z);
    AroundCapture(x, c1, y + p + z, p, c2);
    SplitAroundSlot(y, z, p, c2);
    RegroupTail(x, ReplaceAll(c1, p, c2), y, c2, z);
  }

  /** Concatenation regrouped after a leading pair. */
  lemma RegroupTail(x: string, r: string, y: string, c: string, z: string)
    ensures x + r + (y + c + z) == x + r + y + c + z
  {
  }

  /** Markup that does not open with `2`, then `$2`: the text does not open with `2`. */
  lemma SlotTailStart(y: string, p: string, z: string)
    requires |p| == 2 && p[0] == '$' && p[1] == '2'
    requires y == [] || y[0] != '2'
    ensures (y + p + z)[0] != p[1]
  {
  }

  /** A pass for a two-character placeholder over `x + m + rest`, with `$`-free `x`, treats `m` on its own. */
  lemma AroundCapture(x: string, m: string, rest: string, p: string, c: string)
    requires '$' !in x
    requires |p| == 2 && p[0] == '$'
    requires rest == [] || rest[0] != p[1]
    ensures ReplaceAll(x + m + rest, p, c) == x + ReplaceAll(m, p, c) + ReplaceAll(rest, p, c)
  {
    ClearJunctions(x, m, rest, p);
    ReplaceAllThree(x, m, rest, p, c);
    ReplaceAllAbsent(x, p, c);
  }

  /** The `$1` pass over `x + $1 + tail` when the tail has no `$1`. */
  lemma FirstPass(x: string, tail: string, c1: string)
    requires '$' !in x && ReplaceAll(tail, "$1", c1) == tail
    ensures Fill(x + "$1" + tail, [c1]) == x + c1 + tail
  {
    PlaceholderOneTwo();
    assert [c1][..0] == [];
    ClearJunctions(x, "$1", [], "$1");
    assert NoStraddle(x, "$1" + tail, "$1") by {
      forall k: nat | k < 2 ensures !StraddlesAt(x, "$1" + tail, "$1", k) {
        if k == 1 && |x| >= 1 {
          assert x[|x| - 1] in x;
        }
      }
    }
    assert NoStraddle("$1", tail, "$1");
    ReplaceAllThree(x, "$1", tail, "$1", c1);
    ReplaceAllAbsent(x, "$1", c1);
    PlaceholderReplaced("$1", c1);
  }

  /** The pass for placeholder `p` leaves `y + q + z` alone when `q` is another placeholder. */
  lemma SlotKept(y: string, z: string, p: string, q: string, c: string)
    requires '$' !in y && '$' !in z
    requires |p| == 2 && p[0] == '$' && |q| == 2 && q[0] == '$' && p != q && q[1] != '$'
    ensures ReplaceAll(y + q + z, p, c) == y + q + z
  {
    forall k: nat | k < |p| ensures !StraddlesAt(y, q + z, p, k) {
      if k == 1 && |y| >= 1 {
        assert y[|y| - 1] in y;
      }
    }
    assert NoStraddle(q, z, p);
    ReplaceAllThree(y, q, z, p, c);
    ReplaceAllAbsent(y, p, c);
    ReplaceAllAbsent(z, p, c);
    OtherSlot(q, p, c);
  }

  /**
   * A template with `$2` before `$1` (the link rule): the `$1` pass puts
   * capture 1 in place, then the `$2` pass fills the `$2` slot and every
   * `$2` capture 1 brought in.
   */
  lemma FillSwappedSlots(x: string, y: string, z: string, c1: string, c2: string, p1: string, p2: string)
    requires '$' !in x && '$' !in y && '$' !in z
    requires p1 == "$1" && |p2| == 2 && p2[0] == '$' && p2[1] == '2'
    requires z == [] || z[0] != '2'
    ensures Fill(x + p2 + y + p1 + z, [c1, c2]) == x + c2 + y + ReplaceAll(c1, p2, c2) + z
  {
    var head := x + p2 + y;
    assert x + p2 + y + p1 + z == head + p1 + z;
    SlotKept(x, y, p1, p2, c1);
    SwappedFirstPass(head, z, c1, p1);
    FillSecond(head + p1 + z, c1, c2);
    assert p2 == "$2";
    SwappedSecondPass(x, y, z, c1, c2, p2);
    assert head + c1 + z == x + p2 + y + c1 + z;
  }

  /** The `$1` pass over `head + $1 + z` when `head` has no `$1` and `z` no `$`. */
  lemma SwappedFirstPass(head: string, z: string, c1: string, p1: string)
    requires p1 == "$1" && '$' !in z && ReplaceAll(head, p1, c1) == head
    ensures Fill(head + p1 + z, [c1]) == head + c1 + z
  {
    PlaceholderOneTwo();
    assert [c1][..0] == [];
    forall k: nat | k < 2 ensures !StraddlesAt(head, p1 + z, p1, k) {
      if k == 1 && |head| >= 1 && head[|head| - 1] == '$' {
        assert (p1 + z)[..1] == "$";
      }
    }
    assert NoStraddle(p1, z, p1);
    ReplaceAllThree(head, p1, z, p1, c1);
    ReplaceAllAbsent(z, p1, c1);
    PlaceholderReplaced(p1, c1);
  }

  /** The `$2` pass over `x + $2 + y + c1 + z`. */
  lemma SwappedSecondPass(x: string, y: string, z: string, c1: string, c2: string, p2: string)
    requires '$' !in x && '$' !in y && '$' !in z
    requires |p2| == 2 && p2[0] == '$' && p2[1] == '2'
    requires z == [] || z[0] != '2'
    ensures ReplaceAll(x + p2 + y + c1 + z, p2, c2) == x + c2 + y + ReplaceAll(c1, p2, c2) + z
  {
    var head := x + p2 + y;
    assert head[|head| - 1] != '$' by {
      if y != [] {
        assert head[|head| - 1] == y[|y| - 1] && y[|y| - 1] in y;
      }
    }
    forall k: nat | k < 2 ensures !StraddlesAt(head, c1 + z, p2, k) {
    }
    forall k: nat | k < 2 ensures !StraddlesAt(c1, z, p2, k) {
      if k == 1 && |c1| >= 1 && |z| >= 1 {
        assert z[..1] == [z[0]];
      }
    }
    ReplaceAllThree(head, c1, z, p2, c2);
    SplitAroundSlot(x, y, p2, c2);
    ReplaceAllAbsent(z, p2, c2);
  }
}
