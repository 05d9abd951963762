/** How a metadata line written in the usual form, `<indent>- key:: value`,
    reads back through the anchored readers. */
module MetadataFacts {
  import opened Wrappers
  import opened Text
  import opened Patterns

  /** `<indent>- key value` with a key and a value that start and end without
      white space. */
  predicate WellFormed(ind: string, key: string, val: string) {
    && |ind| >= 1 && (forall k :: 0 <= k < |ind| ==> IsBlank(ind[k]))
    && |key| >= 1 && !IsSpace(key[0]) && !IsDash(key[0])
    && |val| >= 1 && !IsSpace(val[0]) && !IsSpace(val[|val| - 1])
  }

  function MetadataText(ind: string, key: string, val: string): string {
    ind + "- " + key + " " + val
  }

  /** The line is a metadata line, and trimming leaves `- key value`. */
  lemma MetadataTrim(ind: string, key: string, val: string)
    requires WellFormed(ind, key, val)
    ensures IsSubLine(MetadataText(ind, key, val))
    ensures Trim(MetadataText(ind, key, val)) == "- " + key + " " + val
  {
    var s := MetadataText(ind, key, val);
    var sub := "- " + key + " " + val;
    assert s == ind + sub;
    IndentSpan(ind, sub);
    assert TrimStart(s) == sub;
    assert sub[..|sub|] == sub;
    assert sub[|sub| - 1] == val[|val| - 1];
  }

  /** Below an indent, a line starting `- ` is a metadata line and the indent
      is exactly what trimming removes from the front. */
  lemma IndentSpan(ind: string, sub: string)
    requires |ind| >= 1 && forall k :: 0 <= k < |ind| ==> IsBlank(ind[k])
    requires |sub| >= 2 && sub[0] == '-' && sub[1] == ' '
    ensures SpanEnd(ind + sub, 0, IsBlank) == |ind| && SpanEnd(ind + sub, 0, IsSpace) == |ind|
    ensures IsSubLine(ind + sub)
  {
    var s := ind + sub;
    assert forall k :: 0 <= k < |ind| ==> s[k] == ind[k];
    assert s[|ind|] == '-' && s[|ind| + 1] == ' ';
    SpanEndIs(s, 0, IsBlank, |ind|);
    SpanEndIs(s, 0, IsSpace, |ind|);
    assert s[|ind|..|ind| + 2] == "- ";
  }

  /** The value of `- key value` starts after the key and one space, whether
      or not case is ignored. */
  lemma MetadataValueStart(key: string, val: string, ignoreCase: bool)
    requires |key| >= 1 && !IsSpace(key[0]) && !IsDash(key[0])
    requires |val| >= 1 && !IsSpace(val[0])
    ensures ValueStart("- " + key + " " + val, key, ignoreCase) == Some(|key| + 3)
  {
    var sub := "- " + key + " " + val;
    SpanEndIs(sub, 0, IsDash, 1);
    SpanEndIs(sub, 1, IsSpace, 2);
    assert sub[2..2 + |key|] == key;
    SpanEndIs(sub, 2 + |key|, IsSpace, 3 + |key|);
  }

  /** `- key value` does not answer to a key that starts with another letter. */
  lemma OtherKeyAbsent(key: string, val: string, other: string, ignoreCase: bool)
    requires |key| >= 1 && !IsSpace(key[0]) && !IsDash(key[0])
    requires |other| >= 1 && (if ignoreCase then UpperAscii(other[0]) != UpperAscii(key[0]) else other[0] != key[0])
    ensures ValueStart("- " + key + " " + val, other, ignoreCase) == None
  {
    var sub := "- " + key + " " + val;
    SpanEndIs(sub, 0, IsDash, 1);
    SpanEndIs(sub, 1, IsSpace, 2);
  }

  /** A metadata line does not answer to a key that starts with another letter. */
  lemma OtherKeyLineAbsent(ind: string, key: string, val: string, other: string, ignoreCase: bool)
    requires WellFormed(ind, key, val)
    requires |other| >= 1 && (if ignoreCase then UpperAscii(other[0]) != UpperAscii(key[0]) else other[0] != key[0])
    ensures IsSubLine(MetadataText(ind, key, val))
    ensures ValueStart(Trim(MetadataText(ind, key, val)), other, ignoreCase) == None
  {
    MetadataTrim(ind, key, val);
    OtherKeyAbsent(key, val, other, ignoreCase);
  }

  /** A number written in the usual form reads back as that number. */
  lemma NumberLineReads(ind: string, key: string, digits: string, ignoreCase: bool)
    requires WellFormed(ind, key, digits) && AllDigits(digits)
    ensures IsSubLine(MetadataText(ind, key, digits))
    ensures NumberField(Trim(MetadataText(ind, key, digits)), key, ignoreCase) == Some(DecimalValue(digits))
  {
    MetadataTrim(ind, key, digits);
    NumberValueReads(key, digits, ignoreCase);
  }

  lemma NumberValueReads(key: string, digits: string, ignoreCase: bool)
    requires |key| >= 1 && !IsSpace(key[0]) && !IsDash(key[0])
    requires |digits| >= 1 && AllDigits(digits)
    ensures NumberField("- " + key + " " + digits, key, ignoreCase) == Some(DecimalValue(digits))
  {
    var pre := "- " + key + " ";
    MetadataValueStart(key, digits, ignoreCase);
    DigitsRunToEnd(pre, digits);
    NumberAtEnd(pre + digits, key, ignoreCase, |pre|, digits);
  }

  /** Digits after any prefix run to the end of the text. */
  lemma DigitsRunToEnd(pre: string, digits: string)
    requires AllDigits(digits)
    ensures SpanEnd(pre + digits, |pre|, IsDigit) == |pre + digits| && (pre + digits)[|pre|..] == digits
  {
    var sub := pre + digits;
    forall k | |pre| <= k < |sub| ensures IsDigit(sub[k]) {
      assert sub[k] == digits[k - |pre|];
    }
    SpanEndIs(sub, |pre|, IsDigit, |sub|);
  }

  /** A value that is a run of digits up to the end of the line is the number read. */
  lemma NumberAtEnd(sub: string, key: string, ignoreCase: bool, v: nat, digits: string)
    requires ValueStart(sub, key, ignoreCase) == Some(v) && v < |sub|
    requires SpanEnd(sub, v, IsDigit) == |sub| && sub[v..] == digits
    ensures NumberField(sub, key, ignoreCase) == Some(DecimalValue(digits))
  {
    assert sub[v..|sub|] == sub[v..];
  }

  /** A date written in the usual form reads back as that date text. */
  lemma DateLineReads(ind: string, key: string, date: string, ignoreCase: bool)
    requires WellFormed(ind, key, date) && |date| == 10 && DateShapeAt(date, 0)
    ensures IsSubLine(MetadataText(ind, key, date))
    ensures DateField(Trim(MetadataText(ind, key, date)), key, ignoreCase) == Some(date)
  {
    MetadataTrim(ind, key, date);
    DateValueReads(key, date, ignoreCase);
  }

  lemma DateValueReads(key: string, date: string, ignoreCase: bool)
    requires |key| >= 1 && !IsSpace(key[0]) && !IsDash(key[0])
    requires |date| == 10 && DateShapeAt(date, 0)
    ensures DateField("- " + key + " " + date, key, ignoreCase) == Some(date)
  {
    var pre := "- " + key + " ";
    var sub := pre + date;
    assert |pre| == |key| + 3;
    MetadataValueStart(key, date, ignoreCase);
    assert forall k :: 0 <= k < 10 ==> sub[|pre| + k] == date[k];
    assert DateShapeAt(sub, |pre|);
    assert sub[|pre|..|pre| + 10] == date;
  }

  /** The key of line 53 as a line may spell it: `daysOfWeek::` up to ASCII case. */
  predicate DaysKey(key: string) {
    |key| == 12 && LiteralAtIgnoringCase(key, 0, "daysOfWeek::")
  }

  /** A day list written in the usual form, whatever the case of its key and
      whatever follows it that is not a day code, reads back as that list:
      the reader takes the whole run of `[MTRFSWU,]` and nothing after it. */
  lemma DaysLineReads(ind: string, key: string, list: string, tail: string)
    requires |ind| >= 1 && forall k :: 0 <= k < |ind| ==> IsBlank(ind[k])
    requires DaysKey(key)
    requires |list| >= 1 && forall k :: 0 <= k < |list| ==> IsDayCode(list[k])
    requires tail == [] || !IsDayCode(tail[0])
    ensures IsSubLine(MetadataText(ind, key, list + tail))
    ensures DaysField(Trim(MetadataText(ind, key, list + tail))) == Some(list)
  {
    var pre := "- " + key + " ";
    var x := pre + list + tail;
    assert MetadataText(ind, key, list + tail) == ind + x;
    IndentSpan(ind, x);
    assert TrimStart(ind + x) == x;
    var r := DaysListTrimmed(pre, list, tail);
    DaysValueReads(key, list, r);
  }

  /** Trimming the end of `pre + list + tail` keeps the list whole, and of the
      tail a prefix `r`. */
  lemma DaysListTrimmed(pre: string, list: string, tail: string) returns (r: string)
    requires |list| >= 1 && forall k :: 0 <= k < |list| ==> IsDayCode(list[k])
    requires tail == [] || !IsDayCode(tail[0])
    ensures TrimEnd(pre + list + tail) == pre + list + r
    ensures r == [] || !IsDayCode(r[0])
  {
    var x := pre + list + tail;
    var k := |pre| + |list| - 1;
    DayCodeIsNotSpace(list[|list| - 1]);
    assert x[k] == list[|list| - 1];
    TrimEndKeeps(x, k);
    var t := TrimEnd(x);
    r := tail[..|t| - (k + 1)];
    assert x[..k + 1] == pre + list;
    assert t == x[..k + 1] + r;
  }

  /** `- key list r` with the list followed by no day code reads as the list. */
  lemma DaysValueReads(key: string, list: string, r: string)
    requires DaysKey(key)
    requires |list| >= 1 && forall k :: 0 <= k < |list| ==> IsDayCode(list[k])
    requires r == [] || !IsDayCode(r[0])
    ensures DaysField("- " + key + " " + list + r) == Some(list)
  {
    var sub := "- " + key + " " + list + r;
    DaysKeyStarts(sub, key);
    DayCodeIsNotSpace(list[0]);
    assert sub[15] == list[0];
    SpanEndIs(sub, 14, IsSpace, 15);
    assert ValueStart(sub, "daysOfWeek::", true) == Some(15);
    forall k | 15 <= k < 15 + |list| ensures IsDayCode(sub[k]) {
      assert sub[k] == list[k - 15];
    }
    assert 15 + |list| == |sub| || sub[15 + |list|] == r[0];
    SpanEndIs(sub, 15, IsDayCode, 15 + |list|);
    assert sub[15..15 + |list|] == list;
  }

  /** `^-+\s*daysOfWeek::` (under `/i`) matches `- key ` up to its last space. */
  lemma DaysKeyStarts(sub: string, key: string)
    requires DaysKey(key) && |sub| >= 15 && sub[..15] == "- " + key + " "
    ensures SpanEnd(sub, 0, IsDash) == 1 && SpanEnd(sub, 1, IsSpace) == 2
    ensures LiteralAtIgnoringCase(sub, 2, "daysOfWeek::") && sub[14] == ' '
  {
    assert sub[0] == '-' && sub[1] == ' ' && sub[2] == key[0];
    assert UpperAscii(key[0]) == UpperAscii("daysOfWeek::"[0]) == 'D';
    assert key[0] == 'd' || key[0] == 'D';
    SpanEndIs(sub, 0, IsDash, 1);
    SpanEndIs(sub, 1, IsSpace, 2);
    forall k | 0 <= k < 12 ensures sub[2 + k] == key[k] {
      assert sub[..15][2 + k] == key[k];
    }
    assert sub[..15][14] == ' ';
  }
}
