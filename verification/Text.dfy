/**
 * Text primitives shared by the parsers, the chunker and the matchers: whitespace, stripping, joining, numerals.
 * Every lemma of the project carries `{:induction false}`; its induction is the recursive call in its body.
 */
module Text {

  datatype Option<+T> = None | Some(value: T)

  /** The characters Python's `str.isspace` accepts; `str.strip` and `\s` use the same set. */
  predicate IsSpace(c: char) {
    || '\t' <= c <= '\r'
    || '\U{001C}' <= c <= ' '
    || c == '\U{0085}' || c == '\U{00A0}' || c == '\U{1680}'
    || '\U{2000}' <= c <= '\U{200A}'
    || c == '\U{2028}' || c == '\U{2029}' || c == '\U{202F}' || c == '\U{205F}' || c == '\U{3000}'
  }

  predicate Blank(s: string) {
    forall i :: 0 <= i < |s| ==> IsSpace(s[i])
  }

  function LStrip(s: string): string {
    if s != "" && IsSpace(s[0]) then LStrip(s[1..]) else s
  }

  function RStrip(s: string): string {
    if s != "" && IsSpace(s[|s| - 1]) then RStrip(s[..|s| - 1]) else s
  }

  function Strip(s: string): string {
    RStrip(LStrip(s))
  }

  /** `Strip` has nothing to remove from such a text. */
  predicate Trimmed(s: string) {
    s != "" ==> !IsSpace(s[0]) && !IsSpace(s[|s| - 1])
  }

  /** The characters of `s` that are not whitespace, in order. */
  function Ink(s: string): string {
    if s == "" then ""
    else if IsSpace(s[0]) then Ink(s[1..])
    else [s[0]] + Ink(s[1..])
  }

  function Join(sep: string, parts: seq<string>): string {
    if parts == [] then ""
    else if |parts| == 1 then parts[0]
    else parts[0] + sep + Join(sep, parts[1..])
  }

  lemma {:induction false} ConcatHeadTail(a: string, b: string)
    requires a != ""
    ensures a + b != "" && (a + b)[0] == a[0] && (a + b)[1..] == a[1..] + b
  {
  }

  lemma {:induction false} InkConcat(a: string, b: string)
    ensures Ink(a + b) == Ink(a) + Ink(b)
  {
    if a == "" {
      assert a + b == b;
    } else {
      InkConcat(a[1..], b);
      ConcatHeadTail(a, b);
      assert [a[0]] + (Ink(a[1..]) + Ink(b)) == [a[0]] + Ink(a[1..]) + Ink(b);
    }
  }

  lemma {:induction false} InkCons(c: char, rest: string)
    ensures Ink([c] + rest) == if IsSpace(c) then Ink(rest) else [c] + Ink(rest)
  {
    assert ([c] + rest)[1..] == rest;
  }

  lemma {:induction false} InkBlank(s: string)
    ensures Blank(s) <==> Ink(s) == ""
  {
    if s != "" {
      InkBlank(s[1..]);
      assert Blank(s) <==> IsSpace(s[0]) && Blank(s[1..]) by {
        assert s == [s[0]] + s[1..];
      }
    }
  }

  lemma {:induction false} LStripSplits(s: string)
    ensures |LStrip(s)| <= |s|
    ensures Blank(s[..|s| - |LStrip(s)|]) && LStrip(s) == s[|s| - |LStrip(s)|..]
    ensures LStrip(s) != "" ==> !IsSpace(LStrip(s)[0])
  {
    if s != "" && IsSpace(s[0]) {
      LStripSplits(s[1..]);
    }
  }

  lemma {:induction false} RStripSplits(s: string)
    ensures |RStrip(s)| <= |s|
    ensures Blank(s[|RStrip(s)|..]) && RStrip(s) == s[..|RStrip(s)|]
    ensures RStrip(s) != "" ==> !IsSpace(RStrip(s)[|RStrip(s)| - 1])
  {
    if s != "" && IsSpace(s[|s| - 1]) {
      var t := s[..|s| - 1];
      RStripSplits(t);
      assert s[|RStrip(t)|..] == t[|RStrip(t)|..] + [s[|s| - 1]];
    }
  }

  /** Stripping on the left stops at the first non-blank character. */
  lemma {:induction false} LStripAt(s: string, k: nat)
    requires k < |s| && !IsSpace(s[k]) && Blank(s[..k])
    ensures LStrip(s) == s[k..]
  {
    if k > 0 {
      BlankHead(s, k);
      assert s[1..][..k - 1] == s[..k][1..];
      LStripAt(s[1..], k - 1);
    }
  }

  /** Stripping removes only whitespace, from the two ends, and leaves none there. */
  lemma {:induction false} StripSplits(s: string) returns (lo: nat, hi: nat)
    ensures lo <= hi <= |s| && Strip(s) == s[lo..hi]
    ensures Blank(s[..lo]) && Blank(s[hi..])
    ensures Trimmed(Strip(s))
    ensures Strip(s) == "" <==> Blank(s)
  {
    LStripSplits(s);
    var l := LStrip(s);
    RStripSplits(l);
    lo := |s| - |l|;
    hi := lo + |RStrip(l)|;
    assert s[hi..] == l[|RStrip(l)|..];
    if Strip(s) != "" {
      assert RStrip(l)[0] == l[0] == s[lo];
    } else {
      assert s == s[..lo] + s[hi..];
    }
  }

  lemma {:induction false} BlankHead(s: string, n: nat)
    requires 0 < n <= |s| && Blank(s[..n])
    ensures IsSpace(s[0])
  {
    assert s[..n][0] == s[0];
  }

  lemma {:induction false} StripTrimmed(s: string)
    requires Trimmed(s)
    ensures Strip(s) == s
  {
  }

  /** A trimmed, non-empty text followed by blanks strips back to itself. */
  lemma {:induction false} StripAfter(s: string, tail: string)
    requires s != "" && Trimmed(s) && Blank(tail)
    ensures Strip(s + tail) == s
    decreases |tail|
  {
    if tail == "" {
      assert s + tail == s;
    } else {
      var n := |tail| - 1;
      StripAfter(s, tail[..n]);
      assert (s + tail)[..|s + tail| - 1] == s + tail[..n];
      assert (s + tail)[0] == s[0] && (s + tail)[|s + tail| - 1] == tail[n];
    }
  }

  lemma {:induction false} JoinSnoc(sep: string, parts: seq<string>, last: string)
    requires parts != []
    ensures Join(sep, parts + [last]) == Join(sep, parts) + sep + last
  {
    if |parts| == 1 {
      assert (parts + [last])[1..] == [last];
    } else {
      JoinSnoc(sep, parts[1..], last);
      assert (parts + [last])[1..] == parts[1..] + [last];
      assert parts[0] + sep + (Join(sep, parts[1..]) + sep + last)
          == parts[0] + sep + Join(sep, parts[1..]) + sep + last;
    }
  }

  /** The non-blank characters of some texts, one after the other. */
  function TextsInk(parts: seq<string>): string {
    if parts == [] then "" else Ink(parts[0]) + TextsInk(parts[1..])
  }

  lemma {:induction false} JoinInk(sep: string, parts: seq<string>)
    requires Blank(sep)
    ensures Ink(Join(sep, parts)) == TextsInk(parts)
  {
    if |parts| == 1 {
      assert TextsInk(parts[1..]) == "";
    } else if |parts| > 1 {
      JoinInk(sep, parts[1..]);
      InkConcat(parts[0] + sep, Join(sep, parts[1..]));
      InkConcat(parts[0], sep);
      InkBlank(sep);
    }
  }

  lemma {:induction false} JoinStarts(sep: string, parts: seq<string>)
    requires parts != [] && parts[0] != ""
    ensures Join(sep, parts) != "" && Join(sep, parts)[0] == parts[0][0]
  {
  }

  lemma {:induction false} JoinEnds(sep: string, parts: seq<string>)
    requires parts != [] && parts[|parts| - 1] != ""
    ensures var s, last := Join(sep, parts), parts[|parts| - 1];
            s != "" && s[|s| - 1] == last[|last| - 1]
  {
    if |parts| > 1 {
      JoinEnds(sep, parts[1..]);
    }
  }

  lemma {:induction false} InkOfMiddle(a: string, b: string, c: string)
    requires Blank(a) && Blank(c)
    ensures Ink(a + b + c) == Ink(b)
  {
    InkConcat(a + b, c);
    InkConcat(a, b);
    InkBlank(a);
    InkBlank(c);
  }

  /** Stripping keeps every non-blank character. */
  lemma {:induction false} StripInk(s: string)
    ensures Ink(Strip(s)) == Ink(s)
  {
    var lo, hi := StripSplits(s);
    InkOfMiddle(s[..lo], s[lo..hi], s[hi..]);
    assert s == s[..lo] + s[lo..hi] + s[hi..];
  }

  lemma {:induction false} RStripConcat(x: string, u: string)
    requires !Blank(u)
    ensures RStrip(x + u) == x + RStrip(u)
    decreases |u|
  {
    var n := |u| - 1;
    assert (x + u)[|x + u| - 1] == u[n];
    if IsSpace(u[n]) {
      assert (x + u)[..|x + u| - 1] == x + u[..n];
      RStripConcat(x, u[..n]);
    }
  }

  lemma {:induction false} RStripBlankTail(x: string, g: string)
    requires Blank(g)
    ensures RStrip(x + g) == RStrip(x)
    decreases |g|
  {
    var n := |g| - 1;
    if g == "" {
      assert x + g == x;
    } else {
      assert (x + g)[|x + g| - 1] == g[n] && (x + g)[..|x + g| - 1] == x + g[..n];
      RStripBlankTail(x, g[..n]);
    }
  }

  // ----- separators --------------------------------------------------------

  /** The part of `s` before the first `c`, and the part after it. */
  function Before(s: string, c: char): string {
    if s == "" || s[0] == c then "" else [s[0]] + Before(s[1..], c)
  }

  function After(s: string, c: char): string {
    if s == "" then "" else if s[0] == c then s[1..] else After(s[1..], c)
  }

  lemma {:induction false} AfterIsShorter(s: string, c: char)
    requires c in s
    ensures |After(s, c)| < |s|
  {
    if s[0] != c {
      assert s == [s[0]] + s[1..];
      AfterIsShorter(s[1..], c);
    }
  }

  lemma {:induction false} FirstSplits(a: string, c: char, b: string)
    requires c !in a
    ensures Before(a + [c] + b, c) == a && After(a + [c] + b, c) == b
  {
    var s := a + [c] + b;
    if a != "" {
      FirstSplits(a[1..], c, b);
      assert s[1..] == a[1..] + [c] + b;
      assert a[0] in a;
    }
  }

  // ----- decimal numerals --------------------------------------------------

  function Digit(d: nat): char
    requires d < 10
  {
    '0' + d as char
  }

  /** The decimal numeral of `n`, as an f-string prints it. */
  function Numeral(n: nat): (s: string)
    ensures s != "" && forall c <- s :: '0' <= c <= '9'
  {
    if n < 10 then [Digit(n)] else Numeral(n / 10) + [Digit(n % 10)]
  }

  function Decimal(n: int): string {
    if n < 0 then "-" + Numeral(-n) else Numeral(n)
  }

  function ParseNumeral(s: string): int {
    if s == "" then 0 else ParseNumeral(s[..|s| - 1]) * 10 + (s[|s| - 1] as int - '0' as int)
  }

  function ParseDecimal(s: string): int {
    if s != "" && s[0] == '-' then -ParseNumeral(s[1..]) else ParseNumeral(s)
  }

  lemma {:induction false} NumeralParses(n: nat)
    ensures ParseNumeral(Numeral(n)) == n
  {
    if n >= 10 {
      NumeralParses(n / 10);
      assert Numeral(n)[..|Numeral(n)| - 1] == Numeral(n / 10);
    } else {
      assert Numeral(n)[..0] == "";
    }
  }

  lemma {:induction false} DecimalParses(n: int)
    ensures ParseDecimal(Decimal(n)) == n
    ensures forall c <- Decimal(n) :: c == '-' || '0' <= c <= '9'
  {
    if n < 0 {
      NumeralParses(-n);
      assert Decimal(n)[1..] == Numeral(-n);
    } else {
      NumeralParses(n);
      assert Numeral(n)[0] in Numeral(n);
    }
  }
}
