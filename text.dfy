/**
 The Python string builtins the ingestion script relies on, restricted to ASCII:
 `str.isspace`, `str.lower`, `str.strip`, `re.sub(r'\s+', ' ', ...)`, the `in`
 substring test, `str.rfind`, `str.replace` of one character, `str.title`, and the
 decimal conversions `str(int)` and `int(str)`.
 */
module Text {

  /** Python's whitespace on ASCII: space, \t \n \v \f \r and the separators \x1c..\x1f. */
  predicate IsSpace(c: char) {
    c == ' ' || ('\t' <= c <= '\r') || ('\U{1C}' <= c <= '\U{1F}')
  }

  predicate IsUpper(c: char) { 'A' <= c <= 'Z' }

  predicate IsLower(c: char) { 'a' <= c <= 'z' }

  /** A cased character in the sense of `str.title`. */
  predicate IsLetter(c: char) { IsUpper(c) || IsLower(c) }

  predicate IsDigit(c: char) { '0' <= c <= '9' }

  function LowerChar(c: char): (d: char)
    ensures !IsUpper(d)
    ensures IsLetter(c) <==> IsLetter(d)
  {
    if IsUpper(c) then (c as int + 32) as char else c
  }

  function UpperChar(c: char): (d: char)
    ensures !IsLower(d)
    ensures IsLetter(c) <==> IsLetter(d)
  {
    if IsLower(c) then (c as int - 32) as char else c
  }

  /** `s.lower()` */
  function Lower(s: string): (r: string)
    ensures |r| == |s|
  {
    if |s| == 0 then [] else [LowerChar(s[0])] + Lower(s[1..])
  }

  /** `lower` maps each character on its own. */
  lemma {:induction false} LowerAt(s: string)
    ensures forall i :: 0 <= i < |s| ==> Lower(s)[i] == LowerChar(s[i])
  {
    if |s| > 0 {
      LowerAt(s[1..]);
      assert forall i :: 1 <= i < |s| ==> Lower(s)[i] == Lower(s[1..])[i - 1];
    }
  }

  /** Lower-casing twice is lower-casing once. */
  lemma LowerIdempotent(s: string)
    ensures Lower(Lower(s)) == Lower(s)
  {
    LowerAt(s);
    LowerAt(Lower(s));
  }

  /** `s.replace(a, b)` for one-character `a` and `b`. */
  function ReplaceChar(s: string, a: char, b: char): (r: string)
    ensures |r| == |s|
    ensures forall i :: 0 <= i < |s| ==> r[i] == if s[i] == a then b else s[i]
  {
    if |s| == 0 then [] else [if s[0] == a then b else s[0]] + ReplaceChar(s[1..], a, b)
  }

  /** Number of whitespace characters at the start of `s`. */
  function LeadingSpaces(s: string): (n: nat)
    ensures n <= |s|
    ensures forall i :: 0 <= i < n ==> IsSpace(s[i])
    ensures n < |s| ==> !IsSpace(s[n])
  {
    if |s| > 0 && IsSpace(s[0]) then 1 + LeadingSpaces(s[1..]) else 0
  }

  /** `s.lstrip()` */
  function TrimLeft(s: string): string {
    s[LeadingSpaces(s)..]
  }

  /** The first index of `s[lo..hi]` that holds no whitespace, or `hi`. */
  function SkipSpaces(s: string, lo: nat, hi: nat): (j: nat)
    requires lo <= hi <= |s|
    ensures lo <= j <= hi
    ensures forall i :: lo <= i < j ==> IsSpace(s[i])
    ensures j < hi ==> !IsSpace(s[j])
    decreases hi - lo
  {
    if lo < hi && IsSpace(s[lo]) then SkipSpaces(s, lo + 1, hi) else lo
  }

  /** Number of leading whitespace characters that `strip` removes. */
  function StripOffset(s: string): (k: nat)
    ensures k <= |s|
  {
    SkipSpaces(s, 0, |s|)
  }

  /** `s[lo:hi].strip()`: drop whitespace from both ends, one character at a time. */
  function StripRange(s: string, lo: nat, hi: nat): (r: string)
    requires lo <= hi <= |s|
    ensures |r| <= hi - lo
    decreases hi - lo
  {
    if lo == hi then []
    else if IsSpace(s[lo]) then StripRange(s, lo + 1, hi)
    else if IsSpace(s[hi - 1]) then StripRange(s, lo, hi - 1)
    else s[lo..hi]
  }

  /** A stripped range neither begins nor ends with whitespace. */
  lemma {:induction false} StripRangeEnds(s: string, lo: nat, hi: nat)
    requires lo <= hi <= |s|
    ensures var r := StripRange(s, lo, hi);
            |r| == 0 || (!IsSpace(r[0]) && !IsSpace(r[|r| - 1]))
    decreases hi - lo
  {
    if lo < hi && IsSpace(s[lo]) {
      StripRangeEnds(s, lo + 1, hi);
    } else if lo < hi && IsSpace(s[hi - 1]) {
      StripRangeEnds(s, lo, hi - 1);
    }
  }

  /** `s.strip()` */
  function Strip(s: string): (r: string)
    ensures |r| <= |s|
    ensures |r| == 0 || (!IsSpace(r[0]) && !IsSpace(r[|r| - 1]))
  {
    StripRangeEnds(s, 0, |s|);
    StripRange(s, 0, |s|)
  }

  /** The stripped range ends before a whitespace-only suffix of the range. */
  lemma {:induction false} StripRangeEnd(s: string, lo: nat, hi: nat)
    requires lo <= hi <= |s|
    ensures var r := StripRange(s, lo, hi);
            var a := SkipSpaces(s, lo, hi);
            && a + |r| <= hi
            && (forall i :: a + |r| <= i < hi ==> IsSpace(s[i]))
    decreases hi - lo
  {
    if lo == hi {
    } else if IsSpace(s[lo]) {
      StripRangeEnd(s, lo + 1, hi);
      assert SkipSpaces(s, lo, hi) == SkipSpaces(s, lo + 1, hi);
    } else if IsSpace(s[hi - 1]) {
      StripRangeEnd(s, lo, hi - 1);
      assert SkipSpaces(s, lo, hi) == lo == SkipSpaces(s, lo, hi - 1);
    } else {
      assert SkipSpaces(s, lo, hi) == lo;
    }
  }

  /** The stripped range is the slice that starts after the leading whitespace. */
  lemma {:induction false} StripRangeSlice(s: string, lo: nat, hi: nat)
    requires lo <= hi <= |s|
    ensures SkipSpaces(s, lo, hi) + |StripRange(s, lo, hi)| <= |s|
    ensures var a := SkipSpaces(s, lo, hi);
            StripRange(s, lo, hi) == s[a..a + |StripRange(s, lo, hi)|]
    decreases hi - lo
  {
    var r := StripRange(s, lo, hi);
    if lo == hi {
    } else if IsSpace(s[lo]) {
      StripRangeSlice(s, lo + 1, hi);
      assert SkipSpaces(s, lo, hi) == SkipSpaces(s, lo + 1, hi);
    } else if IsSpace(s[hi - 1]) {
      StripRangeSlice(s, lo, hi - 1);
      assert SkipSpaces(s, lo, hi) == lo == SkipSpaces(s, lo, hi - 1);
    } else {
      assert SkipSpaces(s, lo, hi) == lo;
      assert r == s[lo..hi];
    }
  }

  /**
   What `strip` removes: the result is the slice of `s` left after removing a
   whitespace prefix and a whitespace suffix, and it neither starts nor ends with
   whitespace, so both removed parts are maximal.
   */
  lemma StripSlice(s: string)
    ensures var r := Strip(s);
            && StripOffset(s) + |r| <= |s|
            && r == s[StripOffset(s)..StripOffset(s) + |r|]
            && (forall i :: 0 <= i < StripOffset(s) ==> IsSpace(s[i]))
            && (forall i :: StripOffset(s) + |r| <= i < |s| ==> IsSpace(s[i]))
  {
    StripRangeEnd(s, 0, |s|);
    StripRangeSlice(s, 0, |s|);
  }

  /** `re.sub(r'\s+', ' ', s)`: every maximal run of whitespace becomes one space. */
  function Collapse(s: string): (r: string)
    ensures |r| <= |s|
    ensures |s| == 0 <==> |r| == 0
    ensures |s| > 0 ==> (IsSpace(s[0]) <==> IsSpace(r[0])) && (!IsSpace(s[0]) ==> r[0] == s[0])
    ensures |s| > 0 ==> (IsSpace(s[|s| - 1]) <==> IsSpace(r[|r| - 1]))
    decreases |s|
  {
    if |s| == 0 then []
    else if IsSpace(s[0]) then [' '] + Collapse(TrimLeft(s))
    else [s[0]] + Collapse(s[1..])
  }

  /** Text in which the only whitespace is single spaces. */
  predicate Collapsed(s: string) {
    && (forall i :: 0 <= i < |s| && IsSpace(s[i]) ==> s[i] == ' ')
    && (forall i, j :: 0 <= i < |s| - 1 && j == i + 1 ==> !(IsSpace(s[i]) && IsSpace(s[j])))
  }

  /** The non-whitespace characters of `s`, in order. */
  function Visible(s: string): string {
    if |s| == 0 then [] else (if IsSpace(s[0]) then [] else [s[0]]) + Visible(s[1..])
  }

  lemma {:induction false} VisibleOfSpaces(s: string)
    requires forall i :: 0 <= i < |s| ==> IsSpace(s[i])
    ensures Visible(s) == []
  {
    if |s| > 0 {
      VisibleOfSpaces(s[1..]);
    }
  }

  lemma {:induction false} VisibleTrimLeft(s: string)
    ensures Visible(TrimLeft(s)) == Visible(s)
  {
    if |s| > 0 && IsSpace(s[0]) {
      VisibleTrimLeft(s[1..]);
      assert TrimLeft(s) == TrimLeft(s[1..]);
    }
  }

  /** The substitution only replaces whitespace: every other character survives, in order. */
  lemma {:induction false} CollapseKeepsVisible(s: string)
    ensures Visible(Collapse(s)) == Visible(s)
    decreases |s|
  {
    if |s| > 0 {
      var r := Collapse(s);
      if IsSpace(s[0]) {
        var t := TrimLeft(s);
        CollapseKeepsVisible(t);
        VisibleTrimLeft(s);
        assert r == [' '] + Collapse(t);
        assert r[1..] == Collapse(t);
      } else {
        CollapseKeepsVisible(s[1..]);
        assert r[1..] == Collapse(s[1..]);
      }
    }
  }

  /** After the substitution, no whitespace other than single spaces remains. */
  lemma {:induction false} CollapseIsCollapsed(s: string)
    ensures Collapsed(Collapse(s))
    decreases |s|
  {
    if |s| > 0 {
      var r := Collapse(s);
      var t := if IsSpace(s[0]) then TrimLeft(s) else s[1..];
      CollapseIsCollapsed(t);
      var rt := Collapse(t);
      assert r == [r[0]] + rt;
      assert IsSpace(s[0]) ==> |rt| == 0 || !IsSpace(rt[0]);
      forall i | 0 <= i < |r| && IsSpace(r[i])
        ensures r[i] == ' '
      {
        if i > 0 {
          assert r[i] == rt[i - 1];
        }
      }
      forall i, j | 0 <= i < |r| - 1 && j == i + 1
        ensures !(IsSpace(r[i]) && IsSpace(r[j]))
      {
        assert r[j] == rt[j - 1];
        if i > 0 {
          assert r[i] == rt[i - 1];
        }
      }
    }
  }

  /** Text already in collapsed form is left unchanged by the substitution. */
  lemma {:induction false} CollapseOfCollapsed(s: string)
    requires Collapsed(s)
    ensures Collapse(s) == s
    decreases |s|
  {
    if |s| > 0 {
      var t := s[1..];
      CollapsedSlice(s, 1, |s|);
      assert s[1..|s|] == t;
      CollapseOfCollapsed(t);
      assert s == [s[0]] + t;
      if IsSpace(s[0]) {
        assert LeadingSpaces(t) == 0 by {
          if |s| > 1 {
            assert !(IsSpace(s[0]) && IsSpace(s[1]));
            assert t[0] == s[1];
          }
        }
        assert TrimLeft(s) == t;
        assert Collapse(s) == [' '] + Collapse(t);
      } else {
        assert Collapse(s) == [s[0]] + Collapse(t);
      }
    }
  }

  /**
   What the substitution makes of character `i`, read on its own: a whitespace
   character that follows another is dropped, one that begins a run becomes a
   single space, and any other character is kept.
   */
  function SqueezedAt(s: string, i: nat): string
    requires i < |s|
  {
    if !IsSpace(s[i]) then [s[i]]
    else if i > 0 && IsSpace(s[i - 1]) then []
    else [' ']
  }

  /** `SqueezedAt` applied to every character from index `i` on, in order. */
  function SqueezedFrom(s: string, i: nat): string
    requires i <= |s|
    decreases |s| - i
  {
    if i == |s| then [] else SqueezedAt(s, i) + SqueezedFrom(s, i + 1)
  }

  /** The characters of a whitespace run after its first one contribute nothing. */
  lemma {:induction false} SpaceRunDropped(s: string, k: nat, j: nat)
    requires 0 < k <= j <= |s|
    requires forall m :: k - 1 <= m < j ==> IsSpace(s[m])
    ensures SqueezedFrom(s, k) == SqueezedFrom(s, j)
    decreases j - k
  {
    if k < j {
      SpaceRunDropped(s, k + 1, j);
    }
  }

  /** The whitespace run that starts at `i` ends at `j`, where `lstrip` of the rest starts. */
  lemma SpaceRunEnd(s: string, i: nat) returns (j: nat)
    requires i < |s| && IsSpace(s[i])
    ensures i < j <= |s| && (j < |s| ==> !IsSpace(s[j]))
    ensures forall m :: i <= m < j ==> IsSpace(s[m])
    ensures TrimLeft(s[i..]) == s[j..]
  {
    var t := s[i..];
    var n := LeadingSpaces(t);
    j := i + n;
    assert t[0] == s[i];
    forall m | i <= m < j
      ensures IsSpace(s[m])
    {
      assert t[m - i] == s[m];
    }
    if j < |s| {
      assert t[n] == s[j];
    }
  }

  /**
   A whitespace run that starts at `i` and ends at `j` becomes one space, both in
   `Collapse` of the rest and in the character-by-character rule.
   */
  lemma SpaceRunAt(s: string, i: nat) returns (j: nat)
    requires i < |s| && IsSpace(s[i]) && (i == 0 || !IsSpace(s[i - 1]))
    ensures i < j <= |s| && (j < |s| ==> !IsSpace(s[j]))
    ensures Collapse(s[i..]) == [' '] + Collapse(s[j..])
    ensures SqueezedFrom(s, i) == [' '] + SqueezedFrom(s, j)
  {
    j := SpaceRunEnd(s, i);
    assert Collapse(s[i..]) == [' '] + Collapse(TrimLeft(s[i..]));
    SpaceRunDropped(s, i + 1, j);
    assert SqueezedAt(s, i) == [' '];
  }

  /** A character that is not whitespace is kept, both by `Collapse` of the rest and by the character-by-character rule. */
  lemma VisibleStep(s: string, i: nat)
    requires i < |s| && !IsSpace(s[i])
    ensures Collapse(s[i..]) == [s[i]] + Collapse(s[i + 1..])
    ensures SqueezedFrom(s, i) == [s[i]] + SqueezedFrom(s, i + 1)
  {
    assert s[i..][1..] == s[i + 1..];
  }

  /** From any index that does not fall inside a whitespace run, `Collapse` of the rest is the character-by-character rule. */
  lemma {:induction false} CollapseFrom(s: string, i: nat)
    requires i <= |s|
    requires i == 0 || i == |s| || !IsSpace(s[i - 1]) || !IsSpace(s[i])
    ensures Collapse(s[i..]) == SqueezedFrom(s, i)
    decreases |s| - i
  {
    if i < |s| {
      if !IsSpace(s[i]) {
        VisibleStep(s, i);
        CollapseFrom(s, i + 1);
      } else {
        var j := SpaceRunAt(s, i);
        CollapseFrom(s, j);
      }
    }
  }

  /**
   `re.sub(r'\s+', ' ', s)` character by character: each character is kept, except that
   a whitespace run leaves exactly one space where it stood.
   */
  lemma CollapseIsSqueezed(s: string)
    ensures Collapse(s) == SqueezedFrom(s, 0)
  {
    assert s[0..] == s;
    CollapseFrom(s, 0);
  }

  /** Every slice of a collapsed text is collapsed. */
  lemma CollapsedSlice(s: string, a: nat, b: nat)
    requires Collapsed(s) && a <= b <= |s|
    ensures Collapsed(s[a..b])
  {
    var t := s[a..b];
    forall i | 0 <= i < |t| && IsSpace(t[i])
      ensures t[i] == ' '
    {
      assert t[i] == s[a + i];
    }
    forall i, j | 0 <= i < |t| - 1 && j == i + 1
      ensures !(IsSpace(t[i]) && IsSpace(t[j]))
    {
      assert t[i] == s[a + i] && t[j] == s[a + j];
    }
  }

  /** A range of a collapsed text loses at most one character at each end when stripped. */
  lemma StripRangeCollapsed(s: string, lo: nat, hi: nat)
    requires Collapsed(s) && lo <= hi <= |s|
    ensures SkipSpaces(s, lo, hi) <= lo + 1
    ensures |StripRange(s, lo, hi)| + 2 >= hi - lo
    ensures Collapsed(StripRange(s, lo, hi))
  {
    StripRangeEnd(s, lo, hi);
    StripRangeSlice(s, lo, hi);
    var r := StripRange(s, lo, hi);
    var a := SkipSpaces(s, lo, hi);
    if hi - lo >= 2 && IsSpace(s[lo]) {
      assert !(IsSpace(s[lo]) && IsSpace(s[lo + 1]));
    }
    SpaceRunShort(s, a + |r|, hi);
    CollapsedSlice(s, a, a + |r|);
  }

  /** A run of whitespace in a collapsed text is at most one character long. */
  lemma SpaceRunShort(s: string, p: nat, hi: nat)
    requires p <= hi <= |s|
    ensures Collapsed(s) && (forall i :: p <= i < hi ==> IsSpace(s[i])) ==> hi - p <= 1
  {
    if hi - p >= 2 {
      assert IsSpace(s[hi - 2]) && IsSpace(s[hi - 1]) ==> !Collapsed(s);
    }
  }

  /** A collapsed text loses at most one character at each end when stripped. */
  lemma StripCollapsed(s: string)
    requires Collapsed(s)
    ensures StripOffset(s) <= 1
    ensures |Strip(s)| + 2 >= |s|
    ensures Collapsed(Strip(s))
  {
    StripRangeCollapsed(s, 0, |s|);
  }

  lemma StripOfTrimmed(s: string)
    requires |s| == 0 || (!IsSpace(s[0]) && !IsSpace(s[|s| - 1]))
    ensures Strip(s) == s
  {
  }

  /** A range whose last character is not whitespace keeps that character when stripped. */
  lemma StripRangeKeepsLast(s: string, lo: nat, hi: nat)
    requires lo < hi <= |s| && !IsSpace(s[hi - 1])
    ensures var r := StripRange(s, lo, hi);
            |r| > 0 && SkipSpaces(s, lo, hi) + |r| == hi && r[|r| - 1] == s[hi - 1]
  {
    StripRangeEnd(s, lo, hi);
    StripRangeSlice(s, lo, hi);
  }

  /** `needle` occurs in `hay` starting at index `i`, compared character by character. */
  predicate MatchAt(hay: string, needle: string, i: int) {
    0 <= i && i + |needle| <= |hay| && forall k :: 0 <= k < |needle| ==> hay[i + k] == needle[k]
  }

  /** An occurrence is exactly a slice of `hay` equal to `needle`. */
  lemma MatchAtSlice(hay: string, needle: string, i: int)
    ensures MatchAt(hay, needle, i) <==> 0 <= i && i + |needle| <= |hay| && hay[i..i + |needle|] == needle
  {
    if 0 <= i && i + |needle| <= |hay| {
      var w := hay[i..i + |needle|];
      assert forall k :: 0 <= k < |needle| ==> w[k] == hay[i + k];
    }
  }

  /** Python's `needle in hay` for strings, as a definition. */
  ghost predicate IsSubstring(needle: string, hay: string) {
    exists i :: MatchAt(hay, needle, i)
  }

  function ContainsFrom(hay: string, needle: string, i: nat): (b: bool)
    ensures b <==> exists j :: i <= j && MatchAt(hay, needle, j)
    decreases |hay| - i
  {
    if i + |needle| > |hay| then false
    else if MatchAt(hay, needle, i) then true
    else ContainsFrom(hay, needle, i + 1)
  }

  /** `needle in hay`: a left-to-right scan, equal to the definition. */
  function Contains(hay: string, needle: string): (b: bool)
    ensures b <==> IsSubstring(needle, hay)
  {
    ContainsFrom(hay, needle, 0)
  }

  /** `hay.startswith(needle, i)`, compared from the `k`-th character of `needle` on. */
  function StartsWithAt(hay: string, needle: string, i: nat, k: nat): bool
    requires k <= |needle|
    decreases |needle| - k
  {
    if k == |needle| then i + |needle| <= |hay|
    else i + k < |hay| && hay[i + k] == needle[k] && StartsWithAt(hay, needle, i, k + 1)
  }

  /** The scan agrees with the definition of an occurrence. */
  lemma {:induction false} StartsWithAtMatch(hay: string, needle: string, i: nat, k: nat)
    requires k <= |needle|
    ensures StartsWithAt(hay, needle, i, k) <==>
            i + |needle| <= |hay| && forall m :: k <= m < |needle| ==> hay[i + m] == needle[m]
    decreases |needle| - k
  {
    if k < |needle| {
      StartsWithAtMatch(hay, needle, i, k + 1);
    }
  }

  function LastMatchAtOrBelow(s: string, pat: string, lo: nat, i: int): (r: int)
    requires i + |pat| <= |s|
    ensures r == -1 || lo <= r <= i
    decreases i + 1 - lo
  {
    if i < lo then -1
    else if StartsWithAt(s, pat, i, 0) then i
    else LastMatchAtOrBelow(s, pat, lo, i - 1)
  }

  /** The backward scan finds the last match at or below `i`, or reports that there is none. */
  lemma {:induction false} LastMatchSpec(s: string, pat: string, lo: nat, i: int)
    requires i + |pat| <= |s|
    ensures var r := LastMatchAtOrBelow(s, pat, lo, i);
            && (r == -1 || MatchAt(s, pat, r))
            && forall j :: (if r == -1 then lo else r + 1) <= j <= i ==> !MatchAt(s, pat, j)
    decreases i + 1 - lo
  {
    if i >= lo {
      StartsWithAtMatch(s, pat, i, 0);
      if !MatchAt(s, pat, i) {
        LastMatchSpec(s, pat, lo, i - 1);
      }
    }
  }

  /** `s.rfind(pat, lo, hi)`: the start of the last occurrence of `pat` inside `s[lo:hi]`, or -1. */
  function RFind(s: string, pat: string, lo: nat, hi: nat): (r: int)
    requires lo <= hi <= |s|
    ensures r == -1 || (lo <= r && r + |pat| <= hi)
  {
    LastMatchAtOrBelow(s, pat, lo, hi - |pat|)
  }

  /** `rfind` returns an occurrence, and no occurrence inside the range lies after it. */
  lemma RFindSpec(s: string, pat: string, lo: nat, hi: nat)
    requires lo <= hi <= |s|
    ensures var r := RFind(s, pat, lo, hi);
            && (r != -1 ==> MatchAt(s, pat, r))
            && (r == -1 ==> forall j :: lo <= j && j + |pat| <= hi ==> !MatchAt(s, pat, j))
            && (r != -1 ==> forall j :: r < j && j + |pat| <= hi ==> !MatchAt(s, pat, j))
  {
    LastMatchSpec(s, pat, lo, hi - |pat|);
  }

  function DigitChar(d: nat): (c: char)
    requires d < 10
    ensures IsDigit(c)
  {
    ('0' as int + d) as char
  }

  function DigitValue(c: char): (d: nat)
    requires IsDigit(c)
    ensures d < 10 && DigitChar(d) == c
  {
    c as int - '0' as int
  }

  predicate AllDigits(s: string) {
    forall i :: 0 <= i < |s| ==> IsDigit(s[i])
  }

  /** `str(n)` for a natural number: decimal digits without leading zeros. */
  function DecimalString(n: nat): (r: string)
    ensures |r| > 0 && AllDigits(r)
    ensures |r| > 1 ==> r[0] != '0'
  {
    if n < 10 then [DigitChar(n)] else DecimalString(n / 10) + [DigitChar(n % 10)]
  }

  /** `int(s)` for a string of decimal digits. */
  function ParseDecimal(s: string): (n: nat)
    requires AllDigits(s)
  {
    if |s| == 0 then 0 else 10 * ParseDecimal(s[..|s| - 1]) + DigitValue(s[|s| - 1])
  }

  /** `int(str(n)) == n`. */
  lemma {:induction false} ParseDecimalString(n: nat)
    ensures ParseDecimal(DecimalString(n)) == n
  {
    var r := DecimalString(n);
    if n >= 10 {
      ParseDecimalString(n / 10);
      assert r[..|r| - 1] == DecimalString(n / 10);
      assert DigitValue(DigitChar(n % 10)) == n % 10;
    } else {
      assert DigitValue(DigitChar(n)) == n;
    }
  }

  /** `str(n)` is injective: distinct numbers get distinct decimal strings. */
  lemma DecimalStringInjective(m: nat, n: nat)
    requires DecimalString(m) == DecimalString(n)
    ensures m == n
  {
    ParseDecimalString(m);
    ParseDecimalString(n);
  }

  function TitleFrom(s: string, prevCased: bool): (r: string)
    ensures |r| == |s|
    ensures forall i :: 0 <= i < |s| && !IsLetter(s[i]) ==> r[i] == s[i]
    ensures forall i :: 0 <= i < |s| && IsLetter(s[i]) ==>
      r[i] == if (if i == 0 then prevCased else IsLetter(s[i - 1])) then LowerChar(s[i]) else UpperChar(s[i])
  {
    if |s| == 0 then []
    else if IsLetter(s[0]) then
      [if prevCased then LowerChar(s[0]) else UpperChar(s[0])] + TitleFrom(s[1..], true)
    else
      [s[0]] + TitleFrom(s[1..], false)
  }

  /**
   `s.title()`: a letter that starts a run of letters becomes upper case, every
   other letter lower case, and everything else is kept.
   */
  function Title(s: string): (r: string)
    ensures |r| == |s|
    ensures forall i :: 0 <= i < |s| && !IsLetter(s[i]) ==> r[i] == s[i]
    ensures forall i :: 0 <= i < |s| && IsLetter(s[i]) && (i == 0 || !IsLetter(s[i - 1])) ==> r[i] == UpperChar(s[i])
    ensures forall i :: 0 < i < |s| && IsLetter(s[i]) && IsLetter(s[i - 1]) ==> r[i] == LowerChar(s[i])
  {
    TitleFrom(s, false)
  }

}
