/**
 * The JavaScript string primitives the parser relies on, over `string`
 * (a sequence of characters): the `\s` character class and `trim()`,
 * `split` on one character and `join`, `indexOf`, `replace` with a string
 * pattern (first occurrence only) and a global `replace` with a literal
 * pattern (every non-overlapping occurrence, left to right).
 */
module Text {
  import opened Wrappers

  /** ECMAScript LineTerminator: LF, CR, LS, PS. */
  predicate IsLineTerminator(c: char) {
    c == '\n' || c == '\r' || c == '\U{2028}' || c == '\U{2029}'
  }

  /** ECMAScript WhiteSpace or LineTerminator: what `\s` matches and what `trim()` removes. */
  predicate IsSpace(c: char) {
    || IsLineTerminator(c)
    || c == '\t' || c == '\U{B}' || c == '\U{C}' || c == ' ' || c == '\U{A0}'
    || c == '\U{1680}' || ('\U{2000}' <= c <= '\U{200A}')
    || c == '\U{202F}' || c == '\U{205F}' || c == '\U{3000}' || c == '\U{FEFF}'
  }

  predicate AllSpace(s: string) {
    forall i :: 0 <= i < |s| ==> IsSpace(s[i])
  }

  /** Neither empty-with-spaces nor padded: what `trim()` may return. */
  predicate Unpadded(s: string) {
    s == [] || (!IsSpace(s[0]) && !IsSpace(s[|s| - 1]))
  }

  /** The length of the run of white space that opens `s`. */
  function LeadingSpace(s: string): (n: nat)
    ensures n <= |s| && AllSpace(s[..n])
    ensures n == |s| || !IsSpace(s[n])
  {
    if s != [] && IsSpace(s[0]) then 1 + LeadingSpace(s[1..]) else 0
  }

  /** `String.prototype.trimStart`. */
  function TrimStart(s: string): string
  {
    s[LeadingSpace(s)..]
  }

  /** `String.prototype.trimEnd`. */
  function TrimEnd(s: string): (r: string)
    ensures |r| <= |s| && r == s[..|r|]
    ensures AllSpace(s[|r|..])
    ensures r == [] || !IsSpace(r[|r| - 1])
  {
    if s != [] && IsSpace(s[|s| - 1]) then TrimEnd(s[..|s| - 1]) else s
  }

  /** `String.prototype.trim`: the text between the leading and the trailing white space. */
  function Trim(s: string): (r: string)
  {
    TrimEnd(TrimStart(s))
  }

  /** `Trim(s)` is a slice of `s`, cut out of white space only, and is itself unpadded. */
  lemma TrimShape(s: string) returns (i: nat, j: nat)
    ensures i <= j <= |s| && Trim(s) == s[i..j]
    ensures AllSpace(s[..i]) && AllSpace(s[j..])
    ensures Unpadded(Trim(s))
  {
    i := LeadingSpace(s);
    var t := TrimStart(s);
    var r := TrimEnd(t);
    j := i + |r|;
    TailSlices(s, i, |r|);
    if r != [] {
      assert r[0] == t[0];
    }
  }

  lemma TailSlices(s: string, i: nat, k: nat)
    requires i + k <= |s|
    ensures s[i..][..k] == s[i..i + k] && s[i..][k..] == s[i + k..]
  {
  }

  /** Any split of a string into white space, an unpadded core and white space has `Trim` as its core. */
  lemma TrimUnique(a: string, t: string, b: string)
    requires AllSpace(a) && AllSpace(b) && Unpadded(t)
    ensures Trim(a + t + b) == t
  {
    if t == [] {
      assert a + t + b == (a + b) + [];
      TrimStartSkips(a + b, []);
    } else {
      assert a + t + b == a + (t + b);
      TrimStartSkips(a, t + b);
      TrimEndSkips(t, b);
    }
  }

  /** A string that starts and ends with something other than white space trims to itself. */
  lemma TrimUnpadded(t: string)
    requires Unpadded(t)
    ensures Trim(t) == t
  {
    TrimUnique([], t, []);
    assert [] + t + [] == t;
  }

  lemma {:induction false} TrimStartSkips(a: string, rest: string)
    requires AllSpace(a)
    requires rest == [] || !IsSpace(rest[0])
    ensures LeadingSpace(a + rest) == |a| && TrimStart(a + rest) == rest
  {
    if a != [] {
      assert (a + rest)[1..] == a[1..] + rest;
      TrimStartSkips(a[1..], rest);
    } else {
      assert a + rest == rest;
    }
  }

  lemma {:induction false} TrimEndSkips(t: string, b: string)
    requires AllSpace(b)
    requires t != [] && !IsSpace(t[|t| - 1])
    ensures TrimEnd(t + b) == t
  {
    if b != [] {
      assert (t + b)[..|t + b| - 1] == t + b[..|b| - 1];
      TrimEndSkips(t, b[..|b| - 1]);
    } else {
      assert t + b == t;
    }
  }

  /** `trim()` is idempotent. */
  lemma TrimIdempotent(s: string)
    ensures Trim(Trim(s)) == Trim(s)
  {
    var i, j := TrimShape(s);
    TrimUnique([], Trim(s), []);
    assert [] + Trim(s) + [] == Trim(s);
  }

  // ----- split / join -----

  /**
   * `s.split(sep)` for a one-character separator: the pieces between
   * separators, always at least one (`"".split(":")` is `[""]`).
   */
  function Split(s: string, sep: char): (r: seq<string>)
    ensures |r| >= 1
    ensures forall k :: 0 <= k < |r| ==> sep !in r[k]
    ensures Join(r, sep) == s
  {
    if s == [] then [[]]
    else
      var rest := Split(s[1..], sep);
      if s[0] == sep then
        [[]] + rest
      else
        var r := [[s[0]] + rest[0]] + rest[1..];
        assert r[1..] == rest[1..];
        r
  }

  /** `pieces.join(sep)`. */
  function Join(pieces: seq<string>, sep: char): string
  {
    if |pieces| == 0 then []
    else if |pieces| == 1 then pieces[0]
    else pieces[0] + [sep] + Join(pieces[1..], sep)
  }

  /** A string without the separator is one piece. */
  lemma {:induction false} SplitNoSeparator(a: string, sep: char)
    requires sep !in a
    ensures Split(a, sep) == [a]
  {
    if a != [] {
      SplitNoSeparator(a[1..], sep);
    }
  }

  /** The first piece ends at the first separator; the rest is the split of what follows it. */
  lemma {:induction false} SplitAtFirst(a: string, rest: string, sep: char)
    requires sep !in a
    ensures Split(a + [sep] + rest, sep) == [a] + Split(rest, sep)
  {
    var s := a + [sep] + rest;
    if a == [] {
      assert s == [sep] + rest;
      assert s[1..] == rest;
    } else {
      assert s[1..] == a[1..] + [sep] + rest;
      SplitAtFirst(a[1..], rest, sep);
      assert [a[0]] + a[1..] == a;
    }
  }

  /** Splitting the join of separator-free pieces gives the pieces back. */
  lemma {:induction false} SplitJoin(pieces: seq<string>, sep: char)
    requires |pieces| >= 1
    requires forall k :: 0 <= k < |pieces| ==> sep !in pieces[k]
    ensures Split(Join(pieces, sep), sep) == pieces
  {
    if |pieces| == 1 {
      SplitNoSeparator(pieces[0], sep);
    } else {
      SplitJoin(pieces[1..], sep);
      SplitAtFirst(pieces[0], Join(pieces[1..], sep), sep);
      assert [pieces[0]] + pieces[1..] == pieces;
    }
  }

  // ----- searching -----

  /** `s` holds `p` at position `i`. */
  predicate OccursAt(s: string, p: string, i: nat) {
    i + |p| <= |s| && s[i..i + |p|] == p
  }

  /** `s.indexOf(p, from)`: the first position at or after `from` where `p` occurs. */
  function IndexOf(s: string, p: string, from: nat): (r: Option<nat>)
    ensures r.Some? ==> from <= r.value && OccursAt(s, p, r.value)
    decreases |s| - from
  {
    if from + |p| > |s| then None
    else if s[from..from + |p|] == p then Some(from)
    else IndexOf(s, p, from + 1)
  }

  /** No occurrence at or after `from` comes before the one `IndexOf` reports. */
  lemma {:induction false} IndexOfFirst(s: string, p: string, from: nat, i: nat)
    requires from <= i && OccursAt(s, p, i)
    ensures IndexOf(s, p, from).Some? && IndexOf(s, p, from).value <= i
    decreases i - from
  {
    if from < i && s[from..from + |p|] != p {
      IndexOfFirst(s, p, from + 1, i);
    }
  }

  /** `s.replace(p, r)` with a string pattern: only the first occurrence is replaced. */
  function ReplaceFirst(s: string, p: string, r: string): string
  {
    match IndexOf(s, p, 0)
    case None => s
    case Some(i) => s[..i] + r + s[i + |p|..]
  }

  /**
   * A global `replace` whose pattern matches exactly the literal `p`:
   * the leftmost occurrence is replaced, the scan resumes after it.
   * The replacement is inserted as it is.
   */
  function ReplaceAll(s: string, p: string, r: string): string
    requires |p| > 0
    decreases |s|
  {
    if |s| < |p| then s
    else if s[..|p|] == p then r + ReplaceAll(s[|p|..], p, r)
    else [s[0]] + ReplaceAll(s[1..], p, r)
  }

  /** Replacing a pattern by itself changes nothing. */
  lemma {:induction false} ReplaceAllSelf(s: string, p: string)
    requires |p| > 0
    ensures ReplaceAll(s, p, p) == s
  {
    if |s| >= |p| {
      if s[..|p|] == p {
        ReplaceAllSelf(s[|p|..], p);
        assert s == s[..|p|] + s[|p|..];
      } else {
        ReplaceAllSelf(s[1..], p);
        assert s == [s[0]] + s[1..];
      }
    }
  }

  /** A text that never shows the pattern's first character is left as it is. */
  lemma {:induction false} ReplaceAllAbsent(s: string, p: string, r: string)
    requires |p| > 0 && p[0] !in s
    ensures ReplaceAll(s, p, r) == s
  {
    if |s| >= |p| {
      assert s[..|p|][0] == s[0];
      ReplaceAllAbsent(s[1..], p, r);
      assert s == [s[0]] + s[1..];
    }
  }

  /** Every character of the result comes from the text or from the replacement. */
  lemma {:induction false} ReplaceAllChars(s: string, p: string, r: string)
    requires |p| > 0
    ensures forall c :: c in ReplaceAll(s, p, r) ==> c in s || c in r
  {
    if |s| >= |p| {
      if s[..|p|] == p {
        ReplaceAllChars(s[|p|..], p, r);
        forall c | c in ReplaceAll(s, p, r) ensures c in s || c in r {
          if c !in r {
            assert c in ReplaceAll(s[|p|..], p, r);
            assert c in s[|p|..];
          }
        }
      } else {
        ReplaceAllChars(s[1..], p, r);
        forall c | c in ReplaceAll(s, p, r) ensures c in s || c in r {
          if c != s[0] {
            assert c in ReplaceAll(s[1..], p, r);
          }
        }
      }
    }
  }

  /** An occurrence of `p` begins `k` characters before the end of `a` and runs into `b`. */
  predicate StraddlesAt(a: string, b: string, p: string, k: nat) {
    0 < k < |p| && k <= |a| && |p| - k <= |b| && a[|a| - k..] + b[..|p| - k] == p
  }

  /** No occurrence of `p` straddles the junction of `a` and `b`. */
  predicate NoStraddle(a: string, b: string, p: string) {
    forall k: nat :: k < |p| ==> !StraddlesAt(a, b, p, k)
  }

  /** Dropping characters from the front of `a` keeps the junction clean. */
  lemma NoStraddleDrop(a: string, b: string, p: string, d: nat)
    requires NoStraddle(a, b, p) && d <= |a|
    ensures NoStraddle(a[d..], b, p)
  {
    forall k: nat | k < |p| && k <= |a| - d ensures !StraddlesAt(a[d..], b, p, k) {
      assert a[d..][|a| - d - k..] == a[|a| - k..];
      assert !StraddlesAt(a, b, p, k);
    }
  }

  /** A text shorter than the pattern, on a clean junction, passes through unchanged. */
  lemma {:induction false} ReplaceAllShortFront(a: string, b: string, p: string, r: string)
    requires |p| > 0 && |a| < |p| && NoStraddle(a, b, p)
    ensures ReplaceAll(a + b, p, r) == a + ReplaceAll(b, p, r)
    decreases |a|
  {
    if a == [] {
      assert a + b == b;
    } else {
      var s := a + b;
      if |s| >= |p| {
        assert s[..|p|] == a[|a| - |a|..] + b[..|p| - |a|];
        assert !StraddlesAt(a, b, p, |a|);
        assert s[..|p|] != p;
      }
      assert s == [a[0]] + (a[1..] + b);
      assert s[1..] == a[1..] + b;
      NoStraddleDrop(a, b, p, 1);
      ReplaceAllShortFront(a[1..], b, p, r);
      calc {
        ReplaceAll(s, p, r);
        [s[0]] + ReplaceAll(s[1..], p, r);
        [a[0]] + (a[1..] + ReplaceAll(b, p, r));
        { assert [a[0]] + a[1..] == a; }
        a + ReplaceAll(b, p, r);
      }
    }
  }

  /** When no occurrence straddles the junction, a global replace works on each side separately. */
  lemma {:induction false} ReplaceAllConcat(a: string, b: string, p: string, r: string)
    requires |p| > 0 && NoStraddle(a, b, p)
    ensures ReplaceAll(a + b, p, r) == ReplaceAll(a, p, r) + ReplaceAll(b, p, r)
    decreases |a|
  {
    if |a| < |p| {
      ReplaceAllShortFront(a, b, p, r);
    } else {
      var s := a + b;
      assert s[..|p|] == a[..|p|];
      var d := if a[..|p|] == p then |p| else 1;
      assert s[d..] == a[d..] + b;
      NoStraddleDrop(a, b, p, d);
      ReplaceAllConcat(a[d..], b, p, r);
    }
  }

  /** `s` holds the character `c` twice in a row somewhere. */
  predicate HasPair(s: string, c: char) {
    exists i :: 0 <= i < |s| - 1 && s[i] == c && s[i + 1] == c
  }

  /**
   * After replacing every `cc` by a text without `c`, no `cc` is left:
   * the scan replaces the first of any two adjacent `c`s it reaches.
   */
  lemma {:induction false} ReplaceAllClearsPair(s: string, c: char, r: string)
    requires c !in r
    ensures !HasPair(ReplaceAll(s, [c, c], r), c)
    decreases |s|
  {
    var p := [c, c];
    if |s| < 2 {
    } else if s[..2] == p {
      ReplaceAllClearsPair(s[2..], c, r);
    } else {
      ReplaceAllClearsPair(s[1..], c, r);
    }
  }
}
