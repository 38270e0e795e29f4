/**
 * The fragments of Python's str semantics the scripts rely on: strip, split,
 * startswith, join, the `%d` rendering of an integer and the `int()` parse.
 */
module PyStr {
  import opened Outcomes

  /**
   * The characters str.isspace() accepts; strip(), split() and int() skip exactly these.
   * The tests on the code point come first, so that ordinary text is settled in two comparisons.
   */
  predicate IsSpace(c: char) {
    if c <= ' ' then '\t' <= c <= '\r' || '\U{001C}' <= c
    else if c < '\U{0085}' then false
    else
      || c == '\U{0085}' || c == '\U{00A0}' || c == '\U{1680}' || ('\U{2000}' <= c <= '\U{200A}')
      || c == '\U{2028}' || c == '\U{2029}' || c == '\U{202F}' || c == '\U{205F}' || c == '\U{3000}'
  }

  predicate IsBracket(c: char) { c == '[' || c == ']' }

  predicate IsDigit(c: char) { '0' <= c <= '9' }

  /** Every character of s is a decimal digit. */
  predicate AllDigits(s: string) {
    s == [] || (AllDigits(s[..|s| - 1]) && IsDigit(s[|s| - 1]))
  }

  /** AllDigits character by character. */
  lemma {:induction false} AllDigitsAt(s: string)
    ensures AllDigits(s) <==> forall k :: 0 <= k < |s| ==> IsDigit(s[k])
  {
    if s != [] {
      AllDigitsAt(s[..|s| - 1]);
      assert forall k :: 0 <= k < |s| - 1 ==> s[..|s| - 1][k] == s[k];
    }
  }

  function DigitValue(c: char): nat
    requires IsDigit(c)
  {
    c as int - '0' as int
  }

  function DigitChar(d: nat): (c: char)
    requires d < 10
    ensures IsDigit(c) && DigitValue(c) == d
  {
    ('0' as int + d) as char
  }

  predicate StartsWith(s: string, prefix: string) {
    |prefix| <= |s| && s[..|prefix|] == prefix
  }

  /** s without its leading characters that `drop` accepts (str.lstrip(chars)). */
  function LStrip(s: string, drop: char -> bool): string {
    if |s| > 0 && drop(s[0]) then LStrip(s[1..], drop) else s
  }

  /** lstrip removes a prefix of dropped characters and stops at the first kept one. */
  lemma {:induction false} LStripSpec(s: string, drop: char -> bool)
    ensures var r := LStrip(s, drop);
      && |r| <= |s| && r == s[|s| - |r|..]
      && (forall k :: 0 <= k < |s| - |r| ==> drop(s[k]))
      && (r == [] || !drop(r[0]))
  {
    if |s| > 0 && drop(s[0]) {
      LStripSpec(s[1..], drop);
    }
  }

  /** s without its trailing characters that `drop` accepts (str.rstrip(chars)). */
  function RStrip(s: string, drop: char -> bool): string {
    if |s| > 0 && drop(s[|s| - 1]) then RStrip(s[..|s| - 1], drop) else s
  }

  /** rstrip removes a suffix of dropped characters and stops at the last kept one. */
  lemma {:induction false} RStripSpec(s: string, drop: char -> bool)
    ensures var r := RStrip(s, drop);
      && |r| <= |s| && r == s[..|r|]
      && (forall k :: |r| <= k < |s| ==> drop(s[k]))
      && (r == [] || !drop(r[|r| - 1]))
  {
    if |s| > 0 && drop(s[|s| - 1]) {
      RStripSpec(s[..|s| - 1], drop);
    }
  }

  /** str.strip(chars), with `drop` telling which characters are in chars */
  function StripChars(s: string, drop: char -> bool): string {
    RStrip(LStrip(s, drop), drop)
  }

  /** str.strip() */
  function Strip(s: string): string {
    StripChars(s, IsSpace)
  }

  /** Text that starts and ends with kept characters is its own strip. */
  lemma StripBare(x: string, drop: char -> bool)
    requires |x| > 0 && !drop(x[0]) && !drop(x[|x| - 1])
    ensures StripChars(x, drop) == x
  {
    assert LStrip(x, drop) == x;
  }

  /** Text that starts and ends with non-whitespace is its own str.strip(). */
  lemma StripKeeps(x: string)
    requires |x| > 0 && !IsSpace(x[0]) && !IsSpace(x[|x| - 1])
    ensures Strip(x) == x
  {
    StripBare(x, IsSpace);
  }

  /** Digits and '-' are neither whitespace nor an opening bracket. */
  lemma DigitNotSpace(c: char)
    requires IsDigit(c) || c == '-'
    ensures !IsSpace(c) && c != '['
  {
  }

  /** Stripping text padded by stripped characters gives back the text. */
  lemma StripPadded(pre: string, x: string, post: string, drop: char -> bool)
    requires forall k :: 0 <= k < |pre| ==> drop(pre[k])
    requires forall k :: 0 <= k < |post| ==> drop(post[k])
    requires |x| > 0 && !drop(x[0]) && !drop(x[|x| - 1])
    ensures StripChars(pre + x + post, drop) == x
  {
    var s := pre + x + post;
    assert s[|pre|] == x[0];
    var l := LStrip(s, drop);
    LStripSpec(s, drop);
    assert |s| - |l| <= |pre|;
    assert l[0] == s[|s| - |l|];
    assert |l| == |s| - |pre|;
    assert l == x + post;
    assert l[|x| - 1] == x[|x| - 1];
    var r := RStrip(l, drop);
    RStripSpec(l, drop);
    assert |r| >= |x|;
    assert |r| > 0 && r[|r| - 1] == l[|r| - 1];
    assert |r| == |x|;
  }

  /** sep.join(parts) */
  function Join(parts: seq<string>, sep: string): string {
    if |parts| == 0 then ""
    else if |parts| == 1 then parts[0]
    else parts[0] + sep + Join(parts[1..], sep)
  }

  /** Joining one more piece appends the separator and the piece. */
  lemma {:induction false} JoinSnoc(ts: seq<string>, t: string, sep: string)
    ensures Join(ts + [t], sep) == if ts == [] then t else Join(ts, sep) + sep + t
  {
    if |ts| > 1 {
      JoinSnoc(ts[1..], t, sep);
      assert (ts + [t])[1..] == ts[1..] + [t];
    } else if |ts| == 1 {
      assert (ts + [t])[1..] == [t];
    }
  }

  /** A join of pieces whose first piece has text is not empty. */
  lemma JoinNonEmpty(ts: seq<string>, sep: string)
    requires |ts| > 0 && |ts[0]| > 0
    ensures |Join(ts, sep)| > 0
  {
  }

  /** A join starts with the first piece's first character. */
  lemma JoinFirst(ts: seq<string>, sep: string)
    requires |ts| > 0 && |ts[0]| > 0
    ensures |Join(ts, sep)| > 0 && Join(ts, sep)[0] == ts[0][0]
  {
  }

  /** A join ends with the last piece's last character. */
  lemma {:induction false} JoinLast(ts: seq<string>, sep: string)
    requires |ts| > 0 && |ts[|ts| - 1]| > 0
    ensures var j := Join(ts, sep); var t := ts[|ts| - 1]; |j| > 0 && j[|j| - 1] == t[|t| - 1]
  {
    if |ts| > 1 {
      JoinLast(ts[1..], sep);
      var j := Join(ts[1..], sep);
      assert Join(ts, sep) == (ts[0] + sep) + j;
    }
  }

  /** A join of non-empty end pieces starts as the first piece and ends as the last. */
  lemma JoinEnds(ts: seq<string>, sep: string)
    requires |ts| > 0 && |ts[0]| > 0 && |ts[|ts| - 1]| > 0
    ensures var j := Join(ts, sep); var a := ts[0]; var b := ts[|ts| - 1];
      |j| > 0 && j[0] == a[0] && j[|j| - 1] == b[|b| - 1]
  {
    JoinFirst(ts, sep);
    JoinLast(ts, sep);
  }

  /** str.split(c) for a one-character separator: the pieces between separators, at least one. */
  function Split(s: string, c: char): (r: seq<string>)
    ensures |r| >= 1
  {
    if |s| == 0 then [""]
    else
      var rest := Split(s[1..], c);
      if s[0] == c then [""] + rest else [[s[0]] + rest[0]] + rest[1..]
  }

  /** No piece holds the separator, and joining the pieces with it gives s back. */
  lemma {:induction false} SplitSpec(s: string, c: char)
    ensures var r := Split(s, c); (forall k :: 0 <= k < |r| ==> c !in r[k]) && Join(r, [c]) == s
  {
    if |s| > 0 {
      SplitSpec(s[1..], c);
      var rest := Split(s[1..], c);
      if s[0] == c {
        assert s == [c] + s[1..];
      } else {
        var r := [[s[0]] + rest[0]] + rest[1..];
        assert r[1..] == rest[1..];
        assert s == [s[0]] + Join(rest, [c]);
      }
    }
  }

  /** A separator-free prefix joins the first piece. */
  lemma {:induction false} SplitAppend(p: string, s: string, c: char)
    requires c !in p
    ensures Split(p + s, c) == [p + Split(s, c)[0]] + Split(s, c)[1..]
  {
    if p == [] {
      assert p + s == s;
      var r := Split(s, c);
      assert p + r[0] == r[0];
      assert r == [r[0]] + r[1..];
    } else {
      SplitAppend(p[1..], s, c);
      assert (p + s)[1..] == p[1..] + s;
      assert (p + s)[0] == p[0];
      var rest := Split(p[1..] + s, c);
      assert rest[1..] == Split(s, c)[1..];
      assert [p[0]] + (p[1..] + Split(s, c)[0]) == p + Split(s, c)[0];
    }
  }

  /** Splitting a joined sequence of separator-free pieces gives the pieces back. */
  lemma {:induction false} SplitJoin(ts: seq<string>, c: char)
    requires |ts| >= 1
    requires forall k :: 0 <= k < |ts| ==> c !in ts[k]
    ensures Split(Join(ts, [c]), c) == ts
  {
    if |ts| == 1 {
      SplitAppend(ts[0], "", c);
      assert ts[0] + "" == ts[0];
      assert Split("", c) == [""];
      assert Split(ts[0], c) == [ts[0]];
      assert ts == [ts[0]];
    } else {
      var j := Join(ts[1..], [c]);
      SplitJoin(ts[1..], c);
      assert Join(ts, [c]) == ts[0] + ([c] + j);
      SplitAppend(ts[0], [c] + j, c);
      assert ([c] + j)[1..] == j;
      var sp := Split([c] + j, c);
      assert sp == [""] + Split(j, c);
      assert ts[0] + sp[0] == ts[0];
      assert sp[1..] == ts[1..];
      assert ts == [ts[0]] + ts[1..];
    }
  }

  /** A text without the separator splits into itself. */
  lemma SplitOne(a: string, c: char)
    requires c !in a
    ensures Split(a, c) == [a]
  {
    SplitAppend(a, "", c);
    assert a + "" == a;
    assert Split("", c) == [""];
  }

  /** Two separator-free texts around one separator split into the two. */
  lemma SplitTwo(a: string, b: string, c: char)
    requires c !in a && c !in b
    ensures Split(a + [c] + b, c) == [a, b]
  {
    assert Join([a, b], [c]) == a + [c] + b by {
      assert [a, b][1..] == [b];
    }
    SplitJoin([a, b], c);
  }

  /**
   * Splitting at c a join whose separator is c followed by the separator-free x:
   * every piece after the first keeps x in front.
   */
  lemma {:induction false} SplitJoinWide(ts: seq<string>, c: char, x: string)
    requires |ts| >= 1
    requires forall k :: 0 <= k < |ts| ==> c !in ts[k]
    requires c !in x
    ensures Split(Join(ts, [c] + x), c) == [ts[0]] + seq(|ts| - 1, i requires 0 <= i < |ts| - 1 => x + ts[i + 1])
    decreases |ts|, 1
  {
    if |ts| == 1 {
      SplitAppend(ts[0], "", c);
      assert ts[0] + "" == ts[0];
      assert Split("", c) == [""];
      assert Split(ts[0], c) == [ts[0]];
      assert ts == [ts[0]];
    } else {
      SplitJoinWideCons(ts, c, x);
    }
  }

  /** SplitJoinWide for two pieces or more: the first piece, then x before each piece of the rest. */
  lemma {:induction false} SplitJoinWideCons(ts: seq<string>, c: char, x: string)
    requires |ts| >= 2
    requires forall k :: 0 <= k < |ts| ==> c !in ts[k]
    requires c !in x
    ensures Split(Join(ts, [c] + x), c) == [ts[0]] + seq(|ts| - 1, i requires 0 <= i < |ts| - 1 => x + ts[i + 1])
    decreases |ts|, 0
  {
    var j := Join(ts[1..], [c] + x);
    SplitJoinWide(ts[1..], c, x);
    assert Join(ts, [c] + x) == ts[0] + ([c] + (x + j));
    SplitAppend(ts[0], [c] + (x + j), c);
    assert ([c] + (x + j))[1..] == x + j;
    var sp := Split([c] + (x + j), c);
    assert sp == [""] + Split(x + j, c);
    assert ts[0] + sp[0] == ts[0];
    SplitAppend(x, j, c);
    var tail := seq(|ts| - 2, i requires 0 <= i < |ts| - 2 => x + ts[i + 2]);
    assert Split(j, c) == [ts[1]] + tail;
    assert Split(x + j, c) == [x + ts[1]] + tail;
  }

  /** Length of the leading run of characters that are not whitespace. */
  function WordLen(s: string): (n: nat)
    ensures n <= |s|
    ensures forall k :: 0 <= k < n ==> !IsSpace(s[k])
    ensures n < |s| ==> IsSpace(s[n])
  {
    if |s| > 0 && !IsSpace(s[0]) then 1 + WordLen(s[1..]) else 0
  }

  /** A nonempty string without whitespace. */
  predicate IsWord(w: string) {
    |w| > 0 && forall k :: 0 <= k < |w| ==> !IsSpace(w[k])
  }

  /** str.split() with no argument: the maximal runs of non-whitespace characters, in order. */
  function SplitWs(s: string): (r: seq<string>)
    ensures forall k :: 0 <= k < |r| ==> IsWord(r[k])
    decreases |s|
  {
    if s == [] then []
    else if IsSpace(s[0]) then SplitWs(s[1..])
    else
      var n := WordLen(s);
      var w := s[..n];
      assert IsWord(w);
      [w] + SplitWs(s[n..])
  }

  /** A word followed by whitespace (or nothing) is the first token of str.split(). */
  lemma SplitWsWord(w: string, rest: string)
    requires IsWord(w)
    requires rest == [] || IsSpace(rest[0])
    ensures SplitWs(w + rest) == [w] + SplitWs(rest)
  {
    var s := w + rest;
    assert s[0] == w[0];
    var n := WordLen(s);
    assert n <= |w| by {
      if |w| < |s| { assert s[|w|] == rest[0]; }
    }
    assert forall k :: 0 <= k < |w| ==> s[k] == w[k];
    assert n == |w|;
    assert s[..n] == w && s[n..] == rest;
  }

  /** The decimal digits of a natural number, most significant first, without leading zeros. */
  function NatDigits(n: nat): string {
    if n < 10 then [DigitChar(n)] else NatDigits(n / 10) + [DigitChar(n % 10)]
  }

  /** The digits of n are a non-empty numeral whose value is n. */
  lemma {:induction false} NatDigitsSpec(n: nat)
    ensures var r := NatDigits(n); |r| > 0 && AllDigits(r) && DigitsValue(r) == n
  {
    if n >= 10 {
      NatDigitsSpec(n / 10);
      var r := NatDigits(n);
      assert r[..|r| - 1] == NatDigits(n / 10);
    }
  }

  /** The value of a string of decimal digits. */
  function DigitsValue(s: string): nat
    requires AllDigits(s)
  {
    if s == [] then 0 else DigitsValue(s[..|s| - 1]) * 10 + DigitValue(s[|s| - 1])
  }

  /** `'%d' % n` and `str(n)` for an int. */
  function Render(n: int): string {
    if n < 0 then "-" + NatDigits(-n) else NatDigits(n)
  }

  /** str(n) is a numeral: digits only for n >= 0, a '-' and digits below 0. */
  lemma RenderSpec(n: int)
    ensures var r := Render(n); |r| > 0 && IsDigit(r[|r| - 1]) && forall k :: 0 < k < |r| ==> IsDigit(r[k])
    ensures n >= 0 ==> AllDigits(Render(n)) && IsDigit(Render(n)[0])
    ensures n < 0 ==> Render(n)[0] == '-' && AllDigits(Render(n)[1..])
  {
    var r := Render(n);
    if n < 0 {
      NatDigitsSpec(-n);
      assert r[1..] == NatDigits(-n);
      AllDigitsAt(r[1..]);
      forall k | 0 < k < |r| ensures IsDigit(r[k]) {
        assert r[k] == r[1..][k - 1];
      }
    } else {
      NatDigitsSpec(n);
      AllDigitsAt(r);
    }
  }

  /** `int(s)` for a str: surrounding whitespace, an optional sign, then one or more decimal digits. */
  function ParseInt(s: string): Result<int> {
    ParseNumeral(Strip(s))
  }

  /** The numeral part of int(): an optional sign followed by one or more decimal digits. */
  function ParseNumeral(t: string): Result<int> {
    var body := if |t| > 0 && (t[0] == '-' || t[0] == '+') then t[1..] else t;
    if |body| > 0 && AllDigits(body) then
      Ok(if |t| > 0 && t[0] == '-' then -(DigitsValue(body) as int) else DigitsValue(body))
    else Err(ValueError)
  }

  lemma ParseNumeralRender(n: int)
    ensures ParseNumeral(Render(n)) == Ok(n)
  {
    var x := Render(n);
    if n < 0 {
      var d := NatDigits(-n);
      NatDigitsSpec(-n);
      assert x == "-" + d && x[0] == '-' && x[1..] == d;
    } else {
      NatDigitsSpec(n);
      RenderSpec(n);
    }
  }

  /** int() reads back what %d wrote, whatever whitespace surrounds it. */
  lemma ParseRender(n: int, pre: string, post: string)
    requires forall k :: 0 <= k < |pre| ==> IsSpace(pre[k])
    requires forall k :: 0 <= k < |post| ==> IsSpace(post[k])
    ensures ParseInt(pre + Render(n) + post) == Ok(n)
  {
    var x := Render(n);
    RenderSpec(n);
    assert !IsSpace(x[0]) && !IsSpace(x[|x| - 1]);
    StripPadded(pre, x, post, IsSpace);
    ParseNumeralRender(n);
  }

  /** int() reads back what %d wrote after leading whitespace. */
  lemma ParseRenderAfter(n: int, pre: string)
    requires forall k :: 0 <= k < |pre| ==> IsSpace(pre[k])
    ensures ParseInt(pre + Render(n)) == Ok(n)
  {
    ParseRender(n, pre, "");
    assert pre + Render(n) + "" == pre + Render(n);
  }

  /** int() reads back what %d wrote. */
  lemma ParseRenderBare(n: int)
    ensures ParseInt(Render(n)) == Ok(n)
  {
    ParseRenderAfter(n, "");
    assert "" + Render(n) == Render(n);
  }

  /** The rendering of an integer holds no whitespace and no separator the scripts split on. */
  lemma RenderIsWord(n: int)
    ensures IsWord(Render(n))
    ensures ',' !in Render(n) && '\t' !in Render(n)
    ensures n >= 0 ==> '-' !in Render(n)
  {
    var x := Render(n);
    RenderSpec(n);
    assert forall k :: 0 <= k < |x| ==> IsDigit(x[k]) || (k == 0 && x[k] == '-') by {
      if n < 0 {
        forall k | 0 <= k < |x| ensures IsDigit(x[k]) || (k == 0 && x[k] == '-') {
          if k > 0 { assert x[k] == x[1..][k - 1]; }
        }
      }
    }
  }

  /** A strip that leaves text leaves it starting and ending with characters that are not whitespace. */
  lemma StripEnds(x: string)
    requires Strip(x) != ""
    ensures var s := Strip(x); !IsSpace(s[0]) && !IsSpace(s[|s| - 1])
  {
    var l := LStrip(x, IsSpace);
    LStripSpec(x, IsSpace);
    RStripSpec(l, IsSpace);
    var s := Strip(x);
    assert s[0] == l[0];
  }

  /** A text that does not start with the separator starts its first piece. */
  lemma SplitHead(s: string, c: char)
    requires |s| > 0 && s[0] != c
    ensures var p := Split(s, c)[0]; |p| > 0 && p[0] == s[0]
  {
  }

  /** No piece and not the separator holds c, so the join does not. */
  lemma {:induction false} JoinAvoids(ts: seq<string>, sep: string, c: char)
    requires forall k :: 0 <= k < |ts| ==> c !in ts[k]
    requires c !in sep
    ensures c !in Join(ts, sep)
  {
    if |ts| > 1 {
      JoinAvoids(ts[1..], sep, c);
      assert Join(ts, sep) == ts[0] + sep + Join(ts[1..], sep);
    }
  }
  /** Text of whitespace alone has no words. */
  lemma {:induction false} SplitWsSpaces(s: string)
    requires forall k :: 0 <= k < |s| ==> IsSpace(s[k])
    ensures SplitWs(s) == []
    decreases |s|
  {
    if s != [] {
      SplitWsSpaces(s[1..]);
    }
  }

  /** A word that ends inside a, or where b starts with whitespace, is the same word in a + b. */
  lemma {:induction false} WordLenAppend(a: string, b: string)
    requires WordLen(a) < |a| || b == [] || IsSpace(b[0])
    ensures WordLen(a + b) == WordLen(a)
  {
    var s := a + b;
    if a == [] {
      assert s == b;
    } else if !IsSpace(a[0]) {
      assert s[0] == a[0] && s[1..] == a[1..] + b;
      WordLenAppend(a[1..], b);
    } else {
      assert s[0] == a[0];
    }
  }

  /** str.split() of two texts that meet at whitespace is the split of the one followed by the split of the other. */
  lemma {:induction false} SplitWsAppend(a: string, b: string)
    requires a == [] || b == [] || IsSpace(a[|a| - 1]) || IsSpace(b[0])
    ensures SplitWs(a + b) == SplitWs(a) + SplitWs(b)
    decreases |a|, 1
  {
    if a == [] {
      assert a + b == b;
    } else {
      SplitWsAppendFront(a, b);
    }
  }

  /** SplitWsAppend for a non-empty a: its leading space or word comes off first. */
  lemma {:induction false} SplitWsAppendFront(a: string, b: string)
    requires a != [] && (b == [] || IsSpace(a[|a| - 1]) || IsSpace(b[0]))
    ensures SplitWs(a + b) == SplitWs(a) + SplitWs(b)
    decreases |a|, 0
  {
    var s := a + b;
    assert s[0] == a[0];
    if IsSpace(a[0]) {
      assert s[1..] == a[1..] + b;
      SplitWsAppend(a[1..], b);
    } else {
      var n := WordLen(a);
      WordLenAppend(a, b);
      assert s[..n] == a[..n] && s[n..] == a[n..] + b;
      SplitWsAppend(a[n..], b);
    }
  }

  /** Leading whitespace holds no words. */
  lemma LStripSplitWs(s: string)
    ensures SplitWs(LStrip(s, IsSpace)) == SplitWs(s)
  {
    var l := LStrip(s, IsSpace);
    LStripSpec(s, IsSpace);
    var p := s[..|s| - |l|];
    assert s == p + l;
    assert forall k :: 0 <= k < |p| ==> IsSpace(p[k]) by {
      forall k | 0 <= k < |p| ensures IsSpace(p[k]) {
        assert p[k] == s[k];
      }
    }
    SpacesBefore(p, l);
  }

  /** Whitespace before a text adds no words to it. */
  lemma SpacesBefore(p: string, l: string)
    requires forall k :: 0 <= k < |p| ==> IsSpace(p[k])
    ensures SplitWs(p + l) == SplitWs(l)
  {
    SplitWsSpaces(p);
    SplitWsAppend(p, l);
  }

  /** Trailing whitespace holds no words. */
  lemma RStripSplitWs(s: string)
    ensures SplitWs(RStrip(s, IsSpace)) == SplitWs(s)
  {
    var r := RStrip(s, IsSpace);
    RStripSpec(s, IsSpace);
    var q := s[|r|..];
    assert s == r + q;
    assert forall k :: 0 <= k < |q| ==> IsSpace(q[k]) by {
      forall k | 0 <= k < |q| ensures IsSpace(q[k]) {
        assert q[k] == s[|r| + k];
      }
    }
    SpacesAfter(r, q);
  }

  /** Whitespace after a text adds no words to it. */
  lemma SpacesAfter(r: string, q: string)
    requires forall k :: 0 <= k < |q| ==> IsSpace(q[k])
    ensures SplitWs(r + q) == SplitWs(r)
  {
    SplitWsSpaces(q);
    SplitWsAppend(r, q);
  }

  /** str.strip() keeps the words of str.split(). */
  lemma StripSplitWs(s: string)
    ensures SplitWs(Strip(s)) == SplitWs(s)
  {
    LStripSplitWs(s);
    RStripSplitWs(LStrip(s, IsSpace));
  }

  // ---------------------------------------------------------------- float() compared with 0

  /** The position of the first character of s in cs, or |s| when there is none. */
  function FirstOf(s: string, cs: set<char>): (k: nat)
    ensures k <= |s| && (k < |s| ==> s[k] in cs)
    ensures forall j :: 0 <= j < k ==> s[j] !in cs
  {
    if s == [] || s[0] in cs then 0
    else
      var k := FirstOf(s[1..], cs);
      assert forall j :: 0 < j < k + 1 ==> s[j] == s[1..][j - 1];
      1 + k
  }

  /** Every character of s is '0'. */
  predicate AllZero(s: string) {
    s == [] || (AllZero(s[..|s| - 1]) && s[|s| - 1] == '0')
  }

  /** ASCII upper-case letters folded to lower case, as float() matches "inf", "infinity" and "nan". */
  function Lower(s: string): string {
    if s == [] then []
    else
      var c := s[|s| - 1];
      Lower(s[..|s| - 1]) + [if 'A' <= c <= 'Z' then (c as int + 32) as char else c]
  }

  /** A numeral with its optional leading sign taken off. */
  function Unsigned(t: string): string {
    if |t| > 0 && (t[0] == '-' || t[0] == '+') then t[1..] else t
  }

  /** The exponent after 'e': an optional sign and one or more decimal digits. */
  predicate IsExponent(x: string) {
    var b := Unsigned(x);
    |b| > 0 && AllDigits(b)
  }

  /**
   * The digits of a float literal before its exponent: digits with at most one
   * '.' and at least one digit. For such a mantissa, whether it is 0, which it is
   * exactly when every digit is 0; None otherwise.
   */
  function MantissaZero(m: string): Option<bool> {
    var p := FirstOf(m, {'.'});
    var whole := m[..p];
    var frac := if p < |m| then m[p + 1..] else "";
    if AllDigits(whole) && AllDigits(frac) && |whole| + |frac| > 0 then Some(AllZero(whole) && AllZero(frac))
    else None
  }

  /** An unsigned decimal float literal, a mantissa with an optional exponent: whether it is 0, or None. */
  function DecimalZero(body: string): Option<bool> {
    var e := FirstOf(body, {'e', 'E'});
    if e < |body| && !IsExponent(body[e + 1..]) then None else MantissaZero(body[..e])
  }

  /** "inf", "infinity" and "nan", in any case. */
  predicate IsSpecialFloat(body: string) {
    var l := Lower(body);
    l == "inf" || l == "infinity" || l == "nan"
  }

  /**
   * `float(s) == 0` for a str: surrounding whitespace and an optional sign, then a
   * decimal literal, taken as 0 exactly when its digits are all 0 (an exponent so
   * negative that the value underflows to 0.0 is not modelled), or one of the
   * special names, which are non-zero. Any other text is float()'s ValueError.
   */
  function FloatIsZero(s: string): Result<bool> {
    var body := Unsigned(Strip(s));
    match DecimalZero(body)
    case Some(z) => Ok(z)
    case None => if IsSpecialFloat(body) then Ok(false) else Err(ValueError)
  }

  /** `'%.1f' % (t / 10)` for a value that is a whole number t of tenths. */
  function Tenths(t: int): string {
    var a := if t < 0 then -t else t;
    (if t < 0 then "-" else "") + NatDigits(a / 10) + "." + [DigitChar(a % 10)]
  }

  /** The digits of n are all '0' only for n == 0: NatDigits writes no leading zero. */
  lemma {:induction false} NatDigitsZero(n: nat)
    ensures AllZero(NatDigits(n)) <==> n == 0
  {
    if n >= 10 {
      NatDigitsZero(n / 10);
      var r := NatDigits(n);
      assert r[..|r| - 1] == NatDigits(n / 10);
    }
  }

  /** A single character is a digit string, or a string of zeros, when it is a digit, or '0'. */
  lemma OneChar(c: char)
    ensures AllDigits([c]) <==> IsDigit(c)
    ensures AllZero([c]) <==> c == '0'
  {
    assert [c][..0] == [];
  }

  /** Characters that are not in cs are skipped by FirstOf. */
  lemma {:induction false} FirstOfSkip(w: string, rest: string, cs: set<char>)
    requires forall j :: 0 <= j < |w| ==> w[j] !in cs
    ensures FirstOf(w + rest, cs) == |w| + FirstOf(rest, cs)
  {
    if w != [] {
      assert (w + rest)[0] == w[0] && (w + rest)[1..] == w[1..] + rest;
      assert forall j :: 0 <= j < |w| - 1 ==> w[1..][j] == w[j + 1];
      FirstOfSkip(w[1..], rest, cs);
    } else {
      assert w + rest == rest;
    }
  }

  /** Digits, a point and one more digit are a mantissa, zero exactly when all its digits are '0'. */
  lemma MantissaPoint(w: string, d: char)
    requires |w| > 0 && AllDigits(w) && IsDigit(d)
    ensures MantissaZero(w + ("." + [d])) == Some(AllZero(w) && d == '0')
  {
    var body := w + ("." + [d]);
    AllDigitsAt(w);
    FirstOfSkip(w, "." + [d], {'.'});
    assert FirstOf("." + [d], {'.'}) == 0;
    assert body[..|w|] == w;
    assert body[|w| + 1..] == [d];
    OneChar(d);
  }

  /** Text without an exponent mark is a decimal literal exactly when it is a mantissa. */
  lemma DecimalNoExponent(body: string)
    requires FirstOf(body, {'e', 'E'}) == |body|
    ensures DecimalZero(body) == MantissaZero(body)
  {
    assert body[..|body|] == body;
  }

  /** Digits, a point and one more digit hold no exponent mark. */
  lemma PointNoExponent(w: string, d: char)
    requires AllDigits(w) && IsDigit(d)
    ensures FirstOf(w + ("." + [d]), {'e', 'E'}) == |w| + 2
  {
    var tail := "." + [d];
    AllDigitsAt(w);
    FirstOfSkip(w, tail, {'e', 'E'});
    assert tail[1..] == [d] && [d][1..] == [];
  }

  /** Digits, a point and one more digit are a decimal literal, zero exactly when all its digits are '0'. */
  lemma DecimalPoint(w: string, d: char)
    requires |w| > 0 && AllDigits(w) && IsDigit(d)
    ensures DecimalZero(w + ("." + [d])) == Some(AllZero(w) && d == '0')
  {
    PointNoExponent(w, d);
    DecimalNoExponent(w + ("." + [d]));
    MantissaPoint(w, d);
  }

  /** float() reads a '%.1f' rendering of t tenths as zero exactly when t is 0. */
  lemma FloatTenths(t: int)
    ensures FloatIsZero(Tenths(t)) == Ok(t == 0)
  {
    var a := if t < 0 then -t else t;
    var w := NatDigits(a / 10);
    var d := DigitChar(a % 10);
    TenthsBody(t);
    DecimalPoint(w, d);
    NatDigitsZero(a / 10);
    assert d == '0' <==> a % 10 == 0;
  }

  /** A '%.1f' rendering has no surrounding whitespace, and after its sign come the whole digits, a point and one digit. */
  lemma TenthsBody(t: int)
    ensures var a := if t < 0 then -t else t;
      var w := NatDigits(a / 10); var d := DigitChar(a % 10);
      && |w| > 0 && AllDigits(w) && IsDigit(d)
      && Unsigned(Strip(Tenths(t))) == w + ("." + [d])
  {
    var a := if t < 0 then -t else t;
    var w := NatDigits(a / 10);
    var d := DigitChar(a % 10);
    var body := w + ("." + [d]);
    var x := Tenths(t);
    NatDigitsSpec(a / 10);
    AllDigitsAt(w);
    if t < 0 {
      assert x == "-" + body && x[1..] == body;
    } else {
      assert x == body;
    }
    assert x[|x| - 1] == d && !IsSpace(x[0]);
    StripKeeps(x);
  }

  // ---------------------------------------------------------------- a test size as a decimal

  /** n with its last d decimal digits dropped: the whole part of n / 10**d. */
  function Shift(n: nat, d: nat): nat {
    if d == 0 then n else Shift(n / 10, d - 1)
  }

  /** The last d decimal digits of n, zero-padded on the left, as '%.<d>f' writes the fraction of n / 10**d. */
  function Padded(n: nat, d: nat): string {
    if d == 0 then "" else Padded(n / 10, d - 1) + [DigitChar(n % 10)]
  }

  /** `'%.<d>f' % (n / 10**d)`: a decimal of n in units of 10**-d, written with all its d decimals. */
  function Fixed(n: nat, d: nat): string {
    var w := NatDigits(Shift(n, d));
    if d == 0 then w else w + ("." + Padded(n, d))
  }

  /**
   * The tenths `'%.1f'` rounds n / 10**d to, half-way cases upward: exact when
   * d <= 1, and from the hundredths otherwise.
   */
  function RoundTenths(n: nat, d: nat): nat {
    if d == 0 then 10 * n else if d == 1 then n else (Shift(n, d - 2) + 5) / 10
  }

  /** A decimal is 0 exactly when its whole part is 0 and its d decimals are all '0'. */
  lemma {:induction false} ShiftPadded(n: nat, d: nat)
    ensures var x := Padded(n, d); |x| == d && AllDigits(x)
    ensures Shift(n, d) == 0 && AllZero(Padded(n, d)) <==> n == 0
  {
    if d > 0 {
      ShiftPadded(n / 10, d - 1);
      var x := Padded(n, d);
      assert x[..|x| - 1] == Padded(n / 10, d - 1);
    }
  }

  /** Digits, a point and more digits are a mantissa, zero exactly when all its digits are '0'. */
  lemma MantissaFrac(w: string, f: string)
    requires |w| > 0 && AllDigits(w) && AllDigits(f)
    ensures MantissaZero(w + ("." + f)) == Some(AllZero(w) && AllZero(f))
  {
    var body := w + ("." + f);
    DigitsSkip(w, "." + f, {'.'});
    assert FirstOf("." + f, {'.'}) == 0;
    assert body[..|w|] == w;
    assert body[|w| + 1..] == f;
  }

  /** Leading digits are skipped in a search for an exponent mark or a point. */
  lemma DigitsSkip(w: string, rest: string, cs: set<char>)
    requires AllDigits(w)
    requires cs == {'e', 'E'} || cs == {'.'}
    ensures FirstOf(w + rest, cs) == |w| + FirstOf(rest, cs)
  {
    AllDigitsAt(w);
    FirstOfSkip(w, rest, cs);
  }

  /** Digits hold neither an exponent mark nor a point. */
  lemma DigitsNoMark(w: string, cs: set<char>)
    requires AllDigits(w)
    requires cs == {'e', 'E'} || cs == {'.'}
    ensures FirstOf(w, cs) == |w|
  {
    DigitsSkip(w, "", cs);
    assert w + "" == w;
  }

  /** Digits and a point are skipped in a search for an exponent mark. */
  lemma PointSkip(w: string, f: string)
    requires AllDigits(w)
    ensures FirstOf(w + ("." + f), {'e', 'E'}) == |w| + 1 + FirstOf(f, {'e', 'E'})
  {
    var t := "." + f;
    DigitsSkip(w, t, {'e', 'E'});
    FirstOfSkip(".", f, {'e', 'E'});
  }

  /** Digits, a point and more digits hold no exponent mark. */
  lemma FracNoExponent(w: string, f: string)
    requires AllDigits(w) && AllDigits(f)
    ensures FirstOf(w + ("." + f), {'e', 'E'}) == |w| + 1 + |f|
  {
    PointSkip(w, f);
    DigitsNoMark(f, {'e', 'E'});
  }

  /** Digits, a point and more digits are a decimal literal, zero exactly when all its digits are '0'. */
  lemma DecimalDigits(w: string, f: string)
    requires |w| > 0 && AllDigits(w) && AllDigits(f)
    ensures DecimalZero(w + ("." + f)) == Some(AllZero(w) && AllZero(f))
  {
    FracNoExponent(w, f);
    DecimalNoExponent(w + ("." + f));
    MantissaFrac(w, f);
  }

  /** Digits alone are a mantissa with no fraction, zero exactly when all of them are '0'. */
  lemma DecimalWhole(w: string)
    requires |w| > 0 && AllDigits(w)
    ensures DecimalZero(w) == Some(AllZero(w))
  {
    AllDigitsAt(w);
    FirstOfSkip(w, "", {'e', 'E'});
    FirstOfSkip(w, "", {'.'});
    assert w + "" == w;
    DecimalNoExponent(w);
    assert w[..|w|] == w;
  }

  /** float() reads a test size written with all its decimals as zero exactly when it is 0. */
  lemma FloatFixed(n: nat, d: nat)
    ensures FloatIsZero(Fixed(n, d)) == Ok(n == 0)
  {
    var w := NatDigits(Shift(n, d));
    FixedBody(n, d);
    ShiftPadded(n, d);
    NatDigitsZero(Shift(n, d));
    if d == 0 {
      DecimalWhole(w);
    } else {
      DecimalDigits(w, Padded(n, d));
    }
  }

  /** A test size written with all its decimals has no sign and no surrounding whitespace. */
  lemma FixedBody(n: nat, d: nat)
    ensures var w := NatDigits(Shift(n, d)); |w| > 0 && AllDigits(w)
    ensures Unsigned(Strip(Fixed(n, d))) == Fixed(n, d)
  {
    NatDigitsSpec(Shift(n, d));
    FixedEnds(n, d);
    StripKeeps(Fixed(n, d));
  }

  /** A test size written with all its decimals begins and ends with a digit. */
  lemma FixedEnds(n: nat, d: nat)
    ensures var x := Fixed(n, d); |x| > 0 && IsDigit(x[0]) && IsDigit(x[|x| - 1])
  {
    var w := NatDigits(Shift(n, d));
    NatDigitsEnds(Shift(n, d));
    if d > 0 {
      var t := "." + Padded(n, d);
      assert t[|t| - 1] == DigitChar(n % 10);
      assert (w + t)[0] == w[0] && (w + t)[|w + t| - 1] == t[|t| - 1];
    }
  }

  /** The digits of n begin and end with a digit. */
  lemma {:induction false} NatDigitsEnds(n: nat)
    ensures var w := NatDigits(n); |w| > 0 && IsDigit(w[0]) && IsDigit(w[|w| - 1])
  {
    if n >= 10 {
      NatDigitsEnds(n / 10);
    }
  }

  /** For a whole number of tenths, writing all decimals is '%.1f' itself. */
  lemma FixedTenths(n: nat)
    ensures Fixed(n, 1) == Tenths(RoundTenths(n, 1))
  {
    assert Shift(n, 1) == Shift(n / 10, 0) == n / 10;
    assert Padded(n, 1) == Padded(n / 10, 0) + [DigitChar(n % 10)] == [DigitChar(n % 10)];
  }

  /**
   * A test size of fewer than 5 hundredths (0 < n / 10**d < 0.05) rounds to zero
   * tenths, so '%.1f' writes "0.0", which float() reads as 0.
   */
  lemma SmallRoundsToZero(n: nat, d: nat)
    requires d >= 2 && Shift(n, d - 2) < 5
    ensures RoundTenths(n, d) == 0 && Tenths(RoundTenths(n, d)) == "0.0"
    ensures FloatIsZero(Tenths(RoundTenths(n, d))) == Ok(true)
  {
    FloatTenths(0);
  }

  /** float() of empty text is ValueError. */
  lemma FloatEmpty()
    ensures FloatIsZero("") == Err(ValueError)
  {
    assert Strip("") == "";
  }

  /** float() of a word of ASCII letters that is no special name is ValueError. */
  lemma FloatWord(s: string)
    requires s != [] && forall k :: 0 <= k < |s| ==> 'a' <= s[k] <= 'z' || 'A' <= s[k] <= 'Z'
    requires !IsSpecialFloat(s)
    ensures FloatIsZero(s) == Err(ValueError)
  {
    StripKeeps(s);
    assert Unsigned(s) == s;
    var e := FirstOf(s, {'e', 'E'});
    if e < |s| {
      var x := s[e + 1..];
      if x != [] {
        assert Unsigned(x) == x;
        AllDigitsAt(x);
        assert !IsDigit(x[0]);
      }
    } else {
      assert s[..e] == s;
      AllDigitsAt(s);
      assert !IsDigit(s[0]);
    }
  }

  /** "nan" is a non-zero float. */
  lemma FloatNan()
    ensures FloatIsZero("nan") == Ok(false)
  {
    StripKeeps("nan");
    assert FirstOf("nan", {'.'}) == 3;
    assert Lower("nan") == "nan" by {
      assert Lower("n") == "n";
      assert "nan"[..2] == "na" && "na"[..1] == "n";
    }
  }
}
