/** Characters, runs, trimming, splitting and decimal numbers as JavaScript's
    `String` and `RegExp` built-ins treat them in main.js. */
module Text {

  /** `\d` */
  predicate IsDigit(c: char) {
    '0' <= c <= '9'
  }

  /** `\s`, and what `trim()` and `trimEnd()` remove: the ECMAScript white space
      and line terminator characters. */
  predicate IsSpace(c: char) {
    || c == '\t' || c == '\n' || c == '\U{000B}' || c == '\U{000C}' || c == '\r' || c == ' '
    || c == '\U{00A0}' || c == '\U{1680}' || ('\U{2000}' <= c <= '\U{200A}')
    || c == '\U{2028}' || c == '\U{2029}' || c == '\U{202F}' || c == '\U{205F}'
    || c == '\U{3000}' || c == '\U{FEFF}'
  }

  /** The characters `.` does not match. */
  predicate IsLineTerminator(c: char) {
    c == '\n' || c == '\r' || c == '\U{2028}' || c == '\U{2029}'
  }

  /** `[ \t]` */
  predicate IsBlank(c: char) {
    c == ' ' || c == '\t'
  }

  predicate IsDash(c: char) {
    c == '-'
  }

  /** The canonical form `/i` compares without the `u` flag: only ASCII letters fold. */
  function UpperAscii(c: char): (u: char)
    ensures 'a' <= c <= 'z' ==> 'A' <= u <= 'Z'
    ensures !('a' <= c <= 'z') ==> u == c
  {
    if 'a' <= c <= 'z' then (c as int - 32) as char else c
  }

  /** End of the longest run of characters satisfying `p` from `i` on: a greedy `p*`. */
  function SpanEnd(s: string, i: nat, p: char -> bool): (e: nat)
    requires i <= |s|
    ensures i <= e <= |s|
    ensures forall k :: i <= k < e ==> p(s[k])
    ensures e == |s| || !p(s[e])
    decreases |s| - i
  {
    if i < |s| && p(s[i]) then SpanEnd(s, i + 1, p) else i
  }

  /** A greedy run depends only on the characters up to the one that stops it. */
  lemma {:induction false} SpanEndLocal(s: string, t: string, i: nat, m: nat, p: char -> bool)
    requires i <= m < |s| && m < |t| && s[..m + 1] == t[..m + 1]
    requires !p(s[m])
    ensures SpanEnd(s, i, p) == SpanEnd(t, i, p) <= m
    decreases m - i
  {
    assert s[i] == t[i] by { assert s[..m + 1][i] == t[..m + 1][i]; }
    if i < m && p(s[i]) {
      SpanEndLocal(s, t, i + 1, m, p);
    }
  }

  /** A run that ends where the predicate first fails is the greedy run. */
  lemma {:induction false} SpanEndIs(s: string, i: nat, p: char -> bool, e: nat)
    requires i <= e <= |s|
    requires forall k :: i <= k < e ==> p(s[k])
    requires e == |s| || !p(s[e])
    ensures SpanEnd(s, i, p) == e
    decreases e - i
  {
    if i < e {
      SpanEndIs(s, i + 1, p, e);
    }
  }

  /** `s.trimStart()` */
  function TrimStart(s: string): (t: string)
    ensures |t| <= |s| && t == s[|s| - |t|..]
    ensures forall k :: 0 <= k < |s| - |t| ==> IsSpace(s[k])
    ensures t == [] || !IsSpace(t[0])
  {
    s[SpanEnd(s, 0, IsSpace)..]
  }

  /** `s.trimEnd()` */
  function TrimEnd(s: string): (t: string)
    ensures |t| <= |s| && t == s[..|t|]
    ensures forall k :: |t| <= k < |s| ==> IsSpace(s[k])
    ensures t == [] || !IsSpace(t[|t| - 1])
    decreases |s|
  {
    if |s| > 0 && IsSpace(s[|s| - 1]) then TrimEnd(s[..|s| - 1]) else s
  }

  /** `s.trim()` */
  function Trim(s: string): string {
    TrimEnd(TrimStart(s))
  }

  /** Removing white space from the end never removes anything before the last
      other character. */
  lemma TrimEndKeeps(s: string, k: nat)
    requires k < |s| && !IsSpace(s[k])
    ensures k < |TrimEnd(s)| && TrimEnd(s)[..k + 1] == s[..k + 1]
  {
  }

  /** `trimEnd` cuts trailing white space, however much of it there is. */
  lemma {:induction false} TrimEndDropsSpaces(x: string, ws: string)
    requires forall k :: 0 <= k < |ws| ==> IsSpace(ws[k])
    ensures TrimEnd(x + ws) == TrimEnd(x)
    decreases |ws|
  {
    if |ws| == 0 {
      assert x + ws == x;
    } else {
      var y := x + ws;
      assert y[..|y| - 1] == x + ws[..|ws| - 1];
      TrimEndDropsSpaces(x, ws[..|ws| - 1]);
    }
  }

  /** A character of a string spliced from pieces of `s` and `mid` comes from one of them. */
  lemma InSplice(s: string, a: nat, b: nat, mid: string, c: char)
    requires a <= b <= |s|
    requires c in s[..a] + mid + s[b..]
    ensures c in s || c in mid
  {
    var t := s[..a] + mid + s[b..];
    var k :| 0 <= k < |t| && t[k] == c;
    if k < a {
      assert s[k] == c;
    } else if k >= a + |mid| {
      assert s[k - a - |mid| + b] == c;
    } else {
      assert mid[k - a] == c;
    }
  }

  /** `s.replace(/\s+/g, '')` */
  function RemoveSpaces(s: string): (t: string)
    ensures forall k :: 0 <= k < |t| ==> !IsSpace(t[k])
    ensures (forall k :: 0 <= k < |s| ==> !IsSpace(s[k])) ==> t == s
  {
    if |s| == 0 then []
    else (if IsSpace(s[0]) then [] else [s[0]]) + RemoveSpaces(s[1..])
  }

  predicate AllDigits(s: string) {
    forall k :: 0 <= k < |s| ==> IsDigit(s[k])
  }

  function DigitValue(c: char): nat
    requires IsDigit(c)
  {
    c as int - '0' as int
  }

  function DigitChar(d: nat): (c: char)
    requires d < 10
    ensures IsDigit(c) && DigitValue(c) == d
  {
    ('0' as int + d) as char
  }

  /** `parseInt(s, 10)` of a non-empty run of decimal digits. */
  function DecimalValue(s: string): nat
    requires AllDigits(s)
    decreases |s|
  {
    if |s| == 0 then 0 else 10 * DecimalValue(s[..|s| - 1]) + DigitValue(s[|s| - 1])
  }

  /** `String(n)` for a non-negative integer: its decimal digits, without
      leading zeros, that read back as `n`. */
  function Decimal(n: nat): (s: string)
    ensures 1 <= |s| && AllDigits(s)
    ensures DecimalValue(s) == n
    ensures |s| > 1 ==> s[0] != '0'
    decreases n
  {
    if n < 10 then [DigitChar(n)]
    else
      var init := Decimal(n / 10);
      var s := init + [DigitChar(n % 10)];
      assert s[..|s| - 1] == init;
      s
  }

  /** Leading zeros do not change the value read. */
  lemma {:induction false} LeadingZero(s: string)
    requires AllDigits(s)
    ensures AllDigits("0" + s) && DecimalValue("0" + s) == DecimalValue(s)
    decreases |s|
  {
    if |s| > 0 {
      var z := "0" + s;
      assert z[..|z| - 1] == "0" + s[..|s| - 1];
      LeadingZero(s[..|s| - 1]);
    }
  }

  function Zeros(k: nat): (z: string)
    ensures |z| == k && AllDigits(z)
    ensures forall i :: 0 <= i < k ==> z[i] == '0'
  {
    if k == 0 then [] else "0" + Zeros(k - 1)
  }

  lemma {:induction false} ZerosThenDigits(k: nat, s: string)
    requires AllDigits(s)
    ensures AllDigits(Zeros(k) + s) && DecimalValue(Zeros(k) + s) == DecimalValue(s)
    decreases k
  {
    if k > 0 {
      ZerosThenDigits(k - 1, s);
      LeadingZero(Zeros(k - 1) + s);
      assert Zeros(k) == "0" + Zeros(k - 1);
      assert Zeros(k) + s == "0" + (Zeros(k - 1) + s);
    } else {
      assert Zeros(k) + s == s;
    }
  }

  /** `zeroFill(n, width)` of moment.js for a non-negative number: its decimal
      digits, padded with zeros on the left to `width`. */
  function ZeroFill(n: nat, width: nat): (s: string)
    ensures AllDigits(s) && DecimalValue(s) == n
    ensures |s| >= width
  {
    var d := Decimal(n);
    var z := if |d| < width then Zeros(width - |d|) else [];
    ZerosThenDigits(|z|, d);
    z + d
  }

  /** Numbers below 10^width fill exactly `width` digits. */
  lemma ZeroFillWidth(n: nat, width: nat)
    requires 1 <= width <= 4
    requires n < (if width == 1 then 10 else if width == 2 then 100 else if width == 3 then 1000 else 10000)
    ensures |ZeroFill(n, width)| == width
  {
    var d := Decimal(n);
    if n >= 10 {
      var d1 := Decimal(n / 10);
      if n / 10 >= 10 {
        var d2 := Decimal(n / 100);
        assert n / 10 / 10 == n / 100;
        if n / 100 >= 10 {
          assert n / 100 / 10 == n / 1000;
          assert |Decimal(n / 1000)| == 1;
        }
      }
    }
  }

  /** Index of the first `c` in `s`, or `|s|` when there is none. */
  function IndexOf(s: string, c: char): (i: nat)
    ensures i <= |s| && (i < |s| ==> s[i] == c)
    ensures forall k :: 0 <= k < i ==> s[k] != c
  {
    SpanEnd(s, 0, x => x != c)
  }

  /** `s.split(sep)` for a one-character separator. */
  function Split(s: string, sep: char): (parts: seq<string>)
    ensures |parts| >= 1
    decreases |s|
  {
    var i := IndexOf(s, sep);
    if i == |s| then [s] else [s[..i]] + Split(s[i + 1..], sep)
  }

  /** `parts.join(sep)` */
  function Join(parts: seq<string>, sep: char): string
    requires |parts| >= 1
    decreases |parts|
  {
    if |parts| == 1 then parts[0] else parts[0] + [sep] + Join(parts[1..], sep)
  }

  /** Splitting loses nothing: the pieces contain no separator and join back to
      the original string. */
  lemma {:induction false} SplitJoin(s: string, sep: char)
    ensures Join(Split(s, sep), sep) == s
    ensures forall k :: 0 <= k < |Split(s, sep)| ==> sep !in Split(s, sep)[k]
    decreases |s|
  {
    var i := IndexOf(s, sep);
    if i < |s| {
      var t := s[i + 1..];
      SplitJoin(t, sep);
      var parts := Split(s, sep);
      assert parts[1..] == Split(t, sep);
      assert s == s[..i] + [sep] + t;
      forall k | 0 <= k < |parts|
        ensures sep !in parts[k]
      {
        if k > 0 {
          assert parts[k] == Split(t, sep)[k - 1];
        }
      }
    }
  }

  /** Character `s[i]` is a whole piece of `s.split(sep)`: separators (or the
      ends of `s`) on both sides. */
  predicate StandsAlone(s: string, i: nat, sep: char)
    requires i < |s|
  {
    (i == 0 || s[i - 1] == sep) && (i + 1 == |s| || s[i + 1] == sep)
  }

  /** A one-character piece stands alone in `s`. */
  lemma {:induction false} SinglePieceStandsAlone(s: string, sep: char, c: char) returns (j: nat)
    requires c != sep && [c] in Split(s, sep)
    ensures j < |s| && s[j] == c && StandsAlone(s, j, sep)
    decreases |s|
  {
    var i := IndexOf(s, sep);
    if i == |s| {
      assert s == [c];
      j := 0;
    } else {
      var t := s[i + 1..];
      assert Split(s, sep) == [s[..i]] + Split(t, sep);
      if s[..i] == [c] {
        assert i == 1 && s[0] == c && s[1] == sep;
        j := 0;
      } else {
        assert [c] in Split(t, sep);
        var jt := SinglePieceStandsAlone(t, sep, c);
        j := i + 1 + jt;
        assert s[j] == t[jt];
        assert jt > 0 ==> s[j - 1] == t[jt - 1];
        assert jt + 1 < |t| ==> s[j + 1] == t[jt + 1];
      }
    }
  }

  /** A character standing alone in `s` is a piece of it. */
  lemma {:induction false} StandingAloneIsPiece(s: string, sep: char, c: char, j: nat)
    requires c != sep && j < |s| && s[j] == c && StandsAlone(s, j, sep)
    ensures [c] in Split(s, sep)
    decreases |s|
  {
    var i := IndexOf(s, sep);
    if i == |s| {
      assert s == [c];
    } else {
      var t := s[i + 1..];
      assert Split(s, sep) == [s[..i]] + Split(t, sep);
      if j < i {
        assert s[..i] == [c];
      } else {
        assert t[j - i - 1] == c;
        StandingAloneIsPiece(t, sep, c, j - i - 1);
      }
    }
  }

  /** A one-character string is among the pieces exactly when that character
      stands alone somewhere in `s`. */
  lemma SplitHasSingle(s: string, sep: char, c: char)
    requires c != sep
    ensures [c] in Split(s, sep) <==> exists j :: 0 <= j < |s| && s[j] == c && StandsAlone(s, j, sep)
  {
    if [c] in Split(s, sep) {
      var j := SinglePieceStandsAlone(s, sep, c);
    }
    if exists j :: 0 <= j < |s| && s[j] == c && StandsAlone(s, j, sep) {
      var j :| 0 <= j < |s| && s[j] == c && StandsAlone(s, j, sep);
      StandingAloneIsPiece(s, sep, c, j);
    }
  }
}
