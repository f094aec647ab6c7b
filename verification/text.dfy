/** The Python string operations the modelled code relies on, over `string` = `seq<char>`:
    `str.strip()`, `in` on substrings, `str.split(sep)`, `sep.join(parts)`, `str.rstrip(ch)`,
    and decimal rendering/parsing of natural numbers (`str(n)`, `%Y`/`%m`-style zero padding). */
module Text {

  // ---------------------------------------------------------------------------------------
  // Whitespace and str.strip()
  // ---------------------------------------------------------------------------------------

  /** The characters Python's `str.isspace` accepts (and `str.strip()` therefore removes). */
  predicate IsSpace(c: char) {
    || c == ' '
    || ('\t' <= c <= '\r')
    || ('\U{1C}' <= c <= '\U{1F}')
    || c == '\U{85}' || c == '\U{A0}' || c == '\U{1680}'
    || ('\U{2000}' <= c <= '\U{200A}')
    || c == '\U{2028}' || c == '\U{2029}' || c == '\U{202F}' || c == '\U{205F}' || c == '\U{3000}'
  }

  predicate AllSpace(s: string) {
    forall k :: 0 <= k < |s| ==> IsSpace(s[k])
  }

  /** Number of whitespace characters at the front of `s`. */
  function LeadingSpaces(s: string): (n: nat)
    ensures n <= |s|
    ensures AllSpace(s[..n])
    ensures n < |s| ==> !IsSpace(s[n])
  {
    if |s| > 0 && IsSpace(s[0]) then 1 + LeadingSpaces(s[1..]) else 0
  }

  /** Number of whitespace characters at the end of `s`. */
  function TrailingSpaces(s: string): (n: nat)
    ensures n <= |s|
    ensures AllSpace(s[|s| - n..])
    ensures n < |s| ==> !IsSpace(s[|s| - n - 1])
  {
    if |s| > 0 && IsSpace(s[|s| - 1]) then 1 + TrailingSpaces(s[..|s| - 1]) else 0
  }

  /** Python's `s.strip()`: `s` without its leading and trailing whitespace. */
  function Strip(s: string): (r: string)
    ensures |r| <= |s|
    ensures r == [] <==> AllSpace(s)
    ensures r != [] ==> !IsSpace(r[0]) && !IsSpace(r[|r| - 1])
  {
    var lead := LeadingSpaces(s);
    if lead == |s| then []
    else
      var trail := TrailingSpaces(s);
      assert !AllSpace(s) by { assert !IsSpace(s[lead]); }
      s[lead..|s| - trail]
  }

  /** Stripping removes exactly the surrounding whitespace: any text that neither starts nor
      ends with whitespace comes back unchanged from any amount of padding. */
  lemma StripRemovesPadding(front: string, core: string, back: string)
    requires AllSpace(front) && AllSpace(back)
    requires core != [] && !IsSpace(core[0]) && !IsSpace(core[|core| - 1])
    ensures Strip(front + core + back) == core
  {
    var s := front + core + back;
    LeadingSpacesOfPadded(front, core + back);
    assert s == front + (core + back);
    TrailingSpacesOfPadded(front + core, back);
  }

  lemma {:induction false} LeadingSpacesOfPadded(front: string, rest: string)
    requires AllSpace(front)
    requires rest != [] && !IsSpace(rest[0])
    ensures LeadingSpaces(front + rest) == |front|
    decreases |front|
  {
    if front != [] {
      assert (front + rest)[1..] == front[1..] + rest;
      LeadingSpacesOfPadded(front[1..], rest);
    } else {
      assert front + rest == rest;
    }
  }

  lemma {:induction false} TrailingSpacesOfPadded(rest: string, back: string)
    requires AllSpace(back)
    requires rest != [] && !IsSpace(rest[|rest| - 1])
    ensures TrailingSpaces(rest + back) == |back|
    decreases |back|
  {
    if back != [] {
      assert (rest + back)[..|rest + back| - 1] == rest + back[..|back| - 1];
      TrailingSpacesOfPadded(rest, back[..|back| - 1]);
    } else {
      assert rest + back == rest;
    }
  }

  /** `strip()` is idempotent. */
  lemma StripIdempotent(s: string)
    ensures Strip(Strip(s)) == Strip(s)
  {
    var r := Strip(s);
    if r != [] {
      StripRemovesPadding([], r, []);
      assert [] + r + [] == r;
    }
  }

  // ---------------------------------------------------------------------------------------
  // Substrings
  // ---------------------------------------------------------------------------------------

  /** `p` occurs in `s` starting at index `i`. */
  predicate OccursAt(s: string, p: string, i: nat) {
    i + |p| <= |s| && s[i..i + |p|] == p
  }

  /** Python's `p in s` for strings. */
  predicate Contains(s: string, p: string) {
    exists i :: 0 <= i <= |s| && OccursAt(s, p, i)
  }

  /** Index of the first occurrence of `c` in `s`. */
  function IndexOf(s: string, c: char): (i: nat)
    requires c in s
    ensures i < |s| && s[i] == c
    ensures forall k :: 0 <= k < i ==> s[k] != c
  {
    if s[0] == c then 0
    else
      assert c in s[1..] by { var k :| 0 <= k < |s| && s[k] == c; assert s[1..][k - 1] == c; }
      1 + IndexOf(s[1..], c)
  }

  // ---------------------------------------------------------------------------------------
  // str.split(sep) / sep.join(parts) with a one-character separator
  // ---------------------------------------------------------------------------------------

  /** Python's `s.split(c)`: the pieces between consecutive occurrences of `c`. */
  function Split(s: string, c: char): (parts: seq<string>)
    ensures |parts| >= 1
    ensures forall k :: 0 <= k < |parts| ==> c !in parts[k]
    ensures |parts| == 1 <==> c !in s
    decreases |s|
  {
    if c !in s then [s]
    else
      var i := IndexOf(s, c);
      [s[..i]] + Split(s[i + 1..], c)
  }

  /** Python's `c.join(parts)`. */
  function Join(parts: seq<string>, c: char): string
    decreases |parts|
  {
    if |parts| == 0 then []
    else if |parts| == 1 then parts[0]
    else parts[0] + [c] + Join(parts[1..], c)
  }

  /** A separator and the first one in a string: the text before it, the separator, the rest. */
  lemma SplitAtFirst(s: string, c: char)
    requires c in s
    ensures var i := IndexOf(s, c);
      && s == s[..i] + [c] + s[i + 1..]
      && c !in s[..i]
      && Split(s, c) == [s[..i]] + Split(s[i + 1..], c)
  {
    var i := IndexOf(s, c);
    var front := s[..i];
    var back := s[i + 1..];
    assert forall k :: 0 <= k < |front| ==> front[k] != c;
    var joined := front + [c] + back;
    assert |joined| == |s|;
    assert forall k :: 0 <= k < |s| ==> joined[k] == s[k];
    assert joined == s;
  }

  /** Splitting and re-joining gives the original string back. */
  lemma {:induction false} JoinSplit(s: string, c: char)
    ensures Join(Split(s, c), c) == s
    decreases |s|
  {
    if c in s {
      var i := IndexOf(s, c);
      var rest := s[i + 1..];
      SplitAtFirst(s, c);
      JoinSplit(rest, c);
      var parts := Split(s, c);
      assert parts[0] == s[..i];
      assert parts[1..] == Split(rest, c);
      assert |parts| > 1;
      assert Join(parts, c) == s[..i] + [c] + Join(Split(rest, c), c);
    }
  }

  /** Joining pieces that do not contain the separator and splitting again gives the pieces back. */
  lemma {:induction false} SplitJoin(parts: seq<string>, c: char)
    requires |parts| >= 1
    requires forall k :: 0 <= k < |parts| ==> c !in parts[k]
    ensures Split(Join(parts, c), c) == parts
    decreases |parts|
  {
    if |parts| > 1 {
      var tail := parts[1..];
      assert forall k :: 0 <= k < |tail| ==> tail[k] == parts[k + 1];
      SplitJoin(tail, c);
      assert Join(parts, c) == parts[0] + [c] + Join(tail, c);
      assert c !in parts[0];
      SplitFront(parts[0], Join(tail, c), c);
      assert parts == [parts[0]] + tail;
    }
  }

  /** A first piece, an empty piece, then joined pieces: splitting recovers all of them. */
  lemma SplitHeadBlank(head: string, parts: seq<string>, c: char)
    requires c !in head
    requires |parts| >= 1
    requires forall k :: 0 <= k < |parts| ==> c !in parts[k]
    ensures Split(head + [c] + ([] + [c] + Join(parts, c)), c) == [head] + ([[]] + parts)
  {
    var body := Join(parts, c);
    SplitFront(head, [] + [c] + body, c);
    SplitFront([], body, c);
    SplitJoin(parts, c);
  }

  /** Two pieces put in front one at a time are the two-piece display put in front. */
  lemma ConsTwo(a: string, b: string, rest: seq<string>)
    ensures [a] + ([b] + rest) == [a, b] + rest
  {
    var left := [a] + ([b] + rest);
    assert forall k :: 0 <= k < |left| ==> left[k] == ([a, b] + rest)[k];
  }

  /** Splitting at a first separator: the text before it is the first piece. */
  lemma SplitFront(a: string, b: string, c: char)
    requires c !in a
    ensures Split(a + [c] + b, c) == [a] + Split(b, c)
  {
    var s := a + [c] + b;
    var i := IndexOf(s, c);
    assert forall k :: 0 <= k < |a| ==> s[k] == a[k];
    assert s[|a|] == c;
    assert s[..i] == a;
    assert s[i + 1..] == b;
  }

  /** Joining one more piece appends the separator and the piece. */
  lemma {:induction false} JoinSnoc(parts: seq<string>, last: string, c: char)
    requires |parts| >= 1
    ensures Join(parts + [last], c) == Join(parts, c) + [c] + last
    decreases |parts|
  {
    if |parts| > 1 {
      JoinSnoc(parts[1..], last, c);
      assert (parts + [last])[1..] == parts[1..] + [last];
    } else {
      assert parts + [last] == [parts[0], last];
      assert [parts[0], last][1..] == [last];
    }
  }

  /** Splitting at a last separator: the text after it is the last piece. */
  lemma SplitBack(a: string, b: string, c: char)
    requires c !in b
    ensures Split(a + [c] + b, c) == Split(a, c) + [b]
  {
    var parts := Split(a, c);
    JoinSplit(a, c);
    JoinSnoc(parts, b, c);
    var more := parts + [b];
    assert forall k :: 0 <= k < |more| ==> c !in more[k] by {
      forall k | 0 <= k < |more| ensures c !in more[k] {
        if k < |parts| {
          assert more[k] == parts[k];
        }
      }
    }
    SplitJoin(more, c);
  }

  // ---------------------------------------------------------------------------------------
  // str.rstrip(ch) and the piece before the first separator
  // ---------------------------------------------------------------------------------------

  /** Python's `s.rstrip(c)` for a single character `c`. */
  function RStrip(s: string, c: char): (r: string)
    ensures |r| <= |s| && r == s[..|r|]
    ensures r == [] || r[|r| - 1] != c
    ensures forall k :: |r| <= k < |s| ==> s[k] == c
  {
    if |s| > 0 && s[|s| - 1] == c then RStrip(s[..|s| - 1], c) else s
  }

  /** `rstrip` keeps every character up to the last one that is not the stripped character. */
  lemma RStripKeeps(s: string, c: char, i: nat, j: nat)
    requires j <= i < |s| && s[i] != c
    ensures j < |RStrip(s, c)| && RStrip(s, c)[j] == s[j]
  {
  }

  /** Python's `s.split(c)[0]`: the text before the first `c`, or all of `s` when there is none. */
  function BeforeFirst(s: string, c: char): (r: string)
    ensures c !in r
    ensures |r| <= |s| && r == s[..|r|]
    ensures c !in s ==> r == s
    ensures c in s ==> s[|r|] == c
  {
    if c in s then s[..IndexOf(s, c)] else s
  }

  // ---------------------------------------------------------------------------------------
  // Decimal digits
  // ---------------------------------------------------------------------------------------

  predicate IsDigit(ch: char) {
    '0' <= ch <= '9'
  }

  predicate AllDigits(s: string) {
    forall k :: 0 <= k < |s| ==> IsDigit(s[k])
  }

  function DigitChar(d: nat): (ch: char)
    requires d < 10
    ensures IsDigit(ch)
  {
    (('0' as int) + d) as char
  }

  function DigitValue(ch: char): (d: nat)
    requires IsDigit(ch)
    ensures d < 10
  {
    (ch as int) - ('0' as int)
  }

  lemma DigitValueOfChar(d: nat)
    requires d < 10
    ensures DigitValue(DigitChar(d)) == d
  {
  }

  lemma DigitCharOfValue(ch: char)
    requires IsDigit(ch)
    ensures DigitChar(DigitValue(ch)) == ch
  {
  }

  function Pow10(n: nat): (p: nat)
    ensures p >= 1
  {
    if n == 0 then 1 else 10 * Pow10(n - 1)
  }

  /** The number an all-digit string denotes in base 10 (Python's `int(s)` on ASCII digits). */
  function ParseDigits(s: string): (n: nat)
    requires AllDigits(s)
    ensures n < Pow10(|s|)
  {
    if |s| == 0 then 0 else ParseDigits(s[..|s| - 1]) * 10 + DigitValue(s[|s| - 1])
  }

  /** Python's `str(n)` for a natural number: shortest decimal rendering, read back as `n`. */
  function NatToString(n: nat): (r: string)
    ensures r != [] && AllDigits(r)
    ensures ParseDigits(r) == n
    ensures r[0] == '0' ==> n == 0
  {
    if n < 10 then
      DigitValueOfChar(n);
      [DigitChar(n)]
    else
      var front := NatToString(n / 10);
      var r := front + [DigitChar(n % 10)];
      assert r[..|r| - 1] == front;
      DigitValueOfChar(n % 10);
      r
  }

  /** `n` written with exactly `width` digits, zero-padded on the left (`%04d`, `%02d`). */
  function PadDigits(n: nat, width: nat): (r: string)
    requires n < Pow10(width)
    ensures |r| == width && AllDigits(r)
    ensures ParseDigits(r) == n
  {
    if width == 0 then []
    else
      var front := PadDigits(n / 10, width - 1);
      var r := front + [DigitChar(n % 10)];
      assert r[..|r| - 1] == front;
      DigitValueOfChar(n % 10);
      r
  }

  /** Zero-padding to the width of an all-digit string reproduces that string: the fixed-width
      decimal rendering and `ParseDigits` are mutually inverse. */
  lemma {:induction false} PadParseDigits(s: string)
    requires AllDigits(s)
    ensures PadDigits(ParseDigits(s), |s|) == s
    decreases |s|
  {
    if |s| > 0 {
      var front := s[..|s| - 1];
      var last := s[|s| - 1];
      assert AllDigits(front) by {
        assert forall k :: 0 <= k < |front| ==> front[k] == s[k];
      }
      PadParseDigits(front);
      assert s == front + [last];
      PadParseSnoc(front, last);
    }
  }

  /** One induction step of `PadParseDigits`: appending a digit character to a string that
      already reads back appends it to the rendering too. */
  lemma PadParseSnoc(front: string, last: char)
    requires AllDigits(front) && AllDigits(front + [last])
    requires PadDigits(ParseDigits(front), |front|) == front
    ensures PadDigits(ParseDigits(front + [last]), |front| + 1) == front + [last]
  {
    var s := front + [last];
    assert s[..|s| - 1] == front;
    var a := ParseDigits(front);
    assert IsDigit(last) by {
      assert s[|s| - 1] == last;
    }
    var b := DigitValue(last);
    var n := ParseDigits(s);
    assert n == a * 10 + b;
    assert DigitChar(b) == last by {
      DigitCharOfValue(last);
    }
    PadDigitsSnoc(n, a, b, |front|);
  }

  /** Rendering `a` followed by one more digit `b` at one more column appends that digit. */
  lemma PadDigitsSnoc(n: nat, a: nat, b: nat, width: nat)
    requires b < 10 && a < Pow10(width) && n == a * 10 + b
    ensures n < Pow10(width + 1)
    ensures PadDigits(n, width + 1) == PadDigits(a, width) + [DigitChar(b)]
  {
    LastDigit(a, b);
  }

  /** Appending a digit `b` to the decimal form of `a`: dividing by ten recovers both. */
  lemma LastDigit(a: nat, b: nat)
    requires b < 10
    ensures (a * 10 + b) / 10 == a && (a * 10 + b) % 10 == b
  {
  }
}
