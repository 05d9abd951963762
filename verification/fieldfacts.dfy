/** How priority fields are found again after one has been rewritten. */
module FieldFacts {
  import opened Wrappers
  import opened Text
  import opened Patterns

  /** The lazy scan for `]` stops at the latest at the white space that ends
      `s[..m]`, so it sees only that prefix. */
  lemma {:induction false} LazyCloseLocal(s: string, t: string, i: nat, m: nat)
    requires i < m <= |s| && m <= |t| && s[..m] == t[..m] && IsSpace(s[m - 1])
    ensures LazyClose(s, i) == LazyClose(t, i)
    decreases m - i
  {
    assert s[i] == t[i] by { assert s[..m][i] == t[..m][i]; }
    if !IsSpace(s[i]) && s[i] != ']' {
      LazyCloseLocal(s, t, i + 1, m);
    }
  }

  /** Strings with the same first `n` characters agree on each of them. */
  lemma PrefixAgrees(s: string, t: string, n: nat)
    requires n <= |s| && n <= |t| && s[..n] == t[..n]
    ensures forall k :: 0 <= k < n ==> s[k] == t[k]
  {
    forall k | 0 <= k < n ensures s[k] == t[k] { assert s[..n][k] == t[..n][k]; }
  }

  /** An opening `[🎯:: ` before the one at `a` ends no later than `a`, and is
      seen alike in both strings. */
  lemma OpenBeforeField(s: string, t: string, a: nat, q: nat)
    requires LiteralAt(s, a, PriorityOpen) && a + 5 <= |t| && s[..a + 5] == t[..a + 5]
    requires q < a
    ensures LiteralAt(s, q, PriorityOpen) == LiteralAt(t, q, PriorityOpen)
    ensures LiteralAt(s, q, PriorityOpen) ==> q + 5 <= a
    ensures s[a] == '[' && s[a + 4] == ' '
  {
    PrefixAgrees(s, t, a + 5);
    assert s[a..a + 5] == PriorityOpen;
    assert s[a] == '[' && s[a + 4] == ' ';
    assert s[q..q + 5] == t[q..q + 5];
  }

  /** The case of `\[🎯:: (\S+?)\]` in `MatchBeforeFieldIsLocal`. */
  lemma AnyPriorityBeforeField(s: string, t: string, a: nat, q: nat)
    requires LiteralAt(s, a, PriorityOpen) && a + 5 <= |t| && s[..a + 5] == t[..a + 5]
    requires q < a
    ensures MatchAt(AnyPriority, s, q) == MatchAt(AnyPriority, t, q)
  {
    OpenBeforeField(s, t, a, q);
    if LiteralAt(s, q, PriorityOpen) {
      PrefixAgrees(s, t, a + 5);
      LazyCloseLocal(s, t, q + 6, a + 5);
    }
  }

  /** The digit cases of `MatchBeforeFieldIsLocal`. */
  lemma DigitsBeforeField(s: string, t: string, a: nat, q: nat)
    requires LiteralAt(s, a, PriorityOpen) && a + 5 <= |t| && s[..a + 5] == t[..a + 5]
    requires q < a && LiteralAt(s, q, PriorityOpen)
    ensures DigitsThenClose(s, q + 5) == DigitsThenClose(t, q + 5)
    ensures q + 7 <= a + 5 && s[q + 5] == t[q + 5] && s[q + 6] == t[q + 6]
  {
    OpenBeforeField(s, t, a, q);
    PrefixAgrees(s, t, a + 5);
    assert s[..a + 1] == t[..a + 1];
    SpanEndLocal(s, t, q + 5, a, IsDigit);
  }

  /** A priority field starting at `a` hides everything after `a + 5` from any
      priority match that starts before `a`. */
  lemma MatchBeforeFieldIsLocal(tok: Token, s: string, t: string, a: nat, q: nat)
    requires IsPriorityToken(tok)
    requires LiteralAt(s, a, PriorityOpen) && a + 5 <= |t| && s[..a + 5] == t[..a + 5]
    requires q < a
    ensures MatchAt(tok, s, q) == MatchAt(tok, t, q)
  {
    OpenBeforeField(s, t, a, q);
    match tok {
      case AnyPriority =>
        AnyPriorityBeforeField(s, t, a, q);
      case PendingOrNumber =>
        if LiteralAt(s, q, PriorityOpen) { DigitsBeforeField(s, t, a, q); }
      case NumberPriority =>
        if LiteralAt(s, q, PriorityOpen) { DigitsBeforeField(s, t, a, q); }
    }
  }

  /** A `]` after a run of digits closes the lazy `\S+?\]`. */
  lemma {:induction false} LazyCloseOverDigits(s: string, i: nat, e: nat)
    requires i <= e < |s| && s[e] == ']'
    requires forall k :: i <= k < e ==> IsDigit(s[k])
    ensures LazyClose(s, i) == Some(e + 1)
    decreases e - i
  {
    if i < e {
      LazyCloseOverDigits(s, i + 1, e);
    }
  }

  /** Every `[🎯:: /]` or `[🎯:: n]` field is also a match of `\[🎯:: (\S+?)\]`,
      ending at the same place. */
  lemma PendingOrNumberIsAnyPriority(s: string, q: nat)
    requires MatchAt(PendingOrNumber, s, q).Some?
    ensures MatchAt(AnyPriority, s, q) == MatchAt(PendingOrNumber, s, q)
  {
    var e := MatchAt(PendingOrNumber, s, q).value;
    if s[q + 5] == '/' && s[q + 6] == ']' && e == q + 7 {
    } else {
      var d := SpanEnd(s, q + 5, IsDigit);
      assert e == d + 1;
      LazyCloseOverDigits(s, q + 6, d);
    }
  }

  /** The values main.js writes into a field that the pattern `tok` reads
      back: `/` for the two patterns that accept it, and numbers for all three. */
  predicate Fits(tok: Token, v: string) {
    (|v| >= 1 && AllDigits(v)) || (v == "/" && tok != NumberPriority)
  }

  /** `[🎯:: v]` stands in `l` at `a`. */
  predicate FieldAt(l: string, a: nat, v: string) {
    LiteralAt(l, a, PriorityOpen) && a + 6 + |v| <= |l| && l[a + 5..a + 5 + |v|] == v && l[a + 5 + |v|] == ']'
  }

  /** A match of a priority pattern is a field holding its value. */
  lemma MatchIsField(tok: Token, s: string, a: nat, e: nat)
    requires IsPriorityToken(tok) && MatchAt(tok, s, a) == Some(e)
    ensures a + 6 <= e && FieldAt(s, a, FieldValue(s, (a, e))) && e == a + 6 + |FieldValue(s, (a, e))|
  {
  }

  /** The text of `[🎯:: v]` spliced in at `a`, piece by piece. */
  lemma SplicedField(line: string, a: nat, b: nat, v: string, l: string)
    requires a <= b <= |line| && l == line[..a] + PriorityText(v) + line[b..]
    ensures |l| == a + 6 + |v| + (|line| - b) && l[..a] == line[..a]
    ensures FieldAt(l, a, v)
    ensures LiteralAt(line, a, PriorityOpen) ==> l[..a + 5] == line[..a + 5]
  {
    assert l[a..a + 6 + |v|] == PriorityText(v);
    assert l[a..a + 5] == PriorityOpen;
    assert l[a + 5..a + 5 + |v|] == l[a..a + 6 + |v|][5..5 + |v|];
    if LiteralAt(line, a, PriorityOpen) {
      assert line[..a + 5] == line[..a] + line[a..a + 5];
      assert l[..a + 5] == l[..a] + l[a..a + 5];
    }
  }

  /** `[🎯:: v]` at `a` is a match of `tok` when `v` fits it. */
  lemma FieldMatchesAt(tok: Token, l: string, a: nat, v: string)
    requires IsPriorityToken(tok) && Fits(tok, v)
    requires FieldAt(l, a, v)
    ensures MatchAt(tok, l, a) == Some(a + 6 + |v|)
  {
    if v != "/" {
      DigitFieldCloses(l, a, v);
    } else {
      assert l[a + 5] == '/';
    }
  }

  /** The digits of a numeric field run up to its `]`, whichever way the
      pattern reads them. */
  lemma DigitFieldCloses(l: string, a: nat, v: string)
    requires FieldAt(l, a, v) && |v| >= 1 && AllDigits(v)
    ensures DigitsThenClose(l, a + 5) == Some(a + 6 + |v|)
    ensures !IsSpace(l[a + 5]) && LazyClose(l, a + 6) == Some(a + 6 + |v|)
  {
    var e := a + 5 + |v|;
    forall k | a + 5 <= k < e ensures IsDigit(l[k]) {
      assert l[k] == v[k - a - 5];
    }
    SpanEndIs(l, a + 5, IsDigit, e);
    LazyCloseOverDigits(l, a + 6, e);
  }

  /** Text that agrees with `line` up to the opening of its leftmost field
      has no match before that field either. */
  lemma NoMatchBeforeField(tok: Token, line: string, l: string, a: nat)
    requires IsPriorityToken(tok)
    requires FirstMatch(tok, line, 0).Some? && FirstMatch(tok, line, 0).value.0 == a
    requires a + 5 <= |l| && l[..a + 5] == line[..a + 5]
    ensures forall q :: 0 <= q < a ==> MatchAt(tok, l, q).None?
  {
    forall q | 0 <= q < a ensures MatchAt(tok, l, q).None? {
      MatchBeforeFieldIsLocal(tok, line, l, a, q);
    }
  }

  /** The first `tok` field of `l` starts at `a` and holds `v`. */
  predicate FirstFieldReads(tok: Token, l: string, a: nat, v: string) {
    FirstMatch(tok, l, 0) == Some((a, a + 6 + |v|)) && a + 6 + |v| <= |l| && FieldValue(l, (a, a + 6 + |v|)) == v
  }

  /** A fitting field at the place of `line`'s leftmost match, in text that
      agrees with `line` up to there, is the leftmost match of that text. */
  lemma FieldFirstAt(tok: Token, line: string, l: string, a: nat, v: string)
    requires IsPriorityToken(tok) && Fits(tok, v)
    requires FirstMatch(tok, line, 0).Some? && FirstMatch(tok, line, 0).value.0 == a
    requires FieldAt(l, a, v)
    requires l[..a + 5] == line[..a + 5]
    ensures FirstFieldReads(tok, l, a, v)
  {
    NoMatchBeforeField(tok, line, l, a);
    FieldMatchesAt(tok, l, a, v);
    FirstMatchIsLeftmost(tok, l, a, a + 6 + |v|);
  }

  /** Writing a fitting field over the leftmost match of `tok` leaves it the
      leftmost match, now holding `v`. */
  lemma RewrittenFieldStaysFirst(tok: Token, line: string, m: (nat, nat), v: string, l: string)
    requires IsPriorityToken(tok) && Fits(tok, v)
    requires FirstMatch(tok, line, 0) == Some(m)
    requires l == line[..m.0] + PriorityText(v) + line[m.1..]
    ensures FirstFieldReads(tok, l, m.0, v)
  {
    assert MatchAt(tok, line, m.0) == Some(m.1);
    assert LiteralAt(line, m.0, PriorityOpen);
    SplicedField(line, m.0, m.1, v, l);
    FieldFirstAt(tok, line, l, m.0, v);
  }

  /** Writing `[🎯:: v]` over a field that already reads `v` gives back the line. */
  lemma RewriteSameField(l: string, a: nat, v: string)
    requires FieldAt(l, a, v)
    ensures l[..a] + PriorityText(v) + l[a + 6 + |v|..] == l
  {
    assert l[a..a + 6 + |v|] == PriorityText(v) by {
      assert l[a..a + 6 + |v|] == l[a..a + 5] + l[a + 5..a + 5 + |v|] + [l[a + 5 + |v|]];
    }
    assert l == l[..a] + l[a..a + 6 + |v|] + l[a + 6 + |v|..];
  }

  /** The numeric case of the above, for any non-empty run of digits. */
  lemma NumberRewriteStaysFirst(line: string, m: (nat, nat), v: string, l: string)
    requires FirstMatch(NumberPriority, line, 0) == Some(m)
    requires |v| >= 1 && AllDigits(v)
    requires l == line[..m.0] + PriorityText(v) + line[m.1..]
    ensures FirstFieldReads(NumberPriority, l, m.0, v)
  {
    RewrittenFieldStaysFirst(NumberPriority, line, m, v, l);
  }
}
