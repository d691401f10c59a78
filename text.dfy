/**
 * The Python `str` operations the executor relies on, restricted to ASCII text:
 * whitespace classification, `upper`, `lstrip`/`rstrip`, `split`, `join`,
 * `startswith`, substring `in`, `*` on a one-character string, `ljust`, and
 * `str` of an integer together with its inverse.
 */
module Text {

  function Max(a: int, b: int): int { if a < b then b else a }

  function Min(a: int, b: int): int { if a < b then a else b }

  /** Whitespace as `str.split()` and `str.strip()` see it among ASCII characters:
      tab, line feed, vertical tab, form feed and carriage return (9 to 13), the four
      information separators (28 to 31) and the space (32). */
  predicate IsSpace(c: char) {
    9 <= c as int <= 13 || 28 <= c as int <= 32
  }

  predicate AllSpace(s: string) {
    forall i :: 0 <= i < |s| ==> IsSpace(s[i])
  }

  predicate NoSpace(s: string) {
    forall i :: 0 <= i < |s| ==> !IsSpace(s[i])
  }

  predicate AllEqual(s: string, c: char) {
    forall i :: 0 <= i < |s| ==> s[i] == c
  }

  // ---------------------------------------------------------------- upper()

  /** `str.upper()` on one character: only the letters a-z change. */
  function UpperChar(c: char): (u: char)
    ensures IsSpace(u) == IsSpace(c)
    ensures !('a' <= u <= 'z')
    ensures !('a' <= c <= 'z') ==> u == c
    ensures 'a' <= c <= 'z' ==> 'A' <= u <= 'Z' && u as int - 'A' as int == c as int - 'a' as int
  {
    if 'a' <= c <= 'z' then (c as int - 32) as char else c
  }

  function Upper(s: string): (u: string)
    ensures |u| == |s|
    ensures forall i :: 0 <= i < |s| ==> u[i] == UpperChar(s[i])
  {
    seq(|s|, i requires 0 <= i < |s| => UpperChar(s[i]))
  }

  lemma UpperConcat(a: string, b: string)
    ensures Upper(a + b) == Upper(a) + Upper(b)
  {
    assert forall i :: 0 <= i < |a + b| ==> Upper(a + b)[i] == (Upper(a) + Upper(b))[i];
  }

  /** Text without lower-case letters is its own upper-case form. */
  lemma UpperOfUpper(s: string)
    requires forall i :: 0 <= i < |s| ==> !('a' <= s[i] <= 'z')
    ensures Upper(s) == s
  {
  }

  // ---------------------------------------------- lstrip(), rstrip(c), split()

  /** `s.lstrip()`: the suffix of `s` left once its leading whitespace is dropped. */
  function TrimLeading(s: string): (t: string)
    ensures |t| <= |s| && t == s[|s| - |t|..]
    ensures AllSpace(s[..|s| - |t|])
    ensures t == [] || !IsSpace(t[0])
    decreases |s|
  {
    if s != [] && IsSpace(s[0]) then
      var t := TrimLeading(s[1..]);
      assert s[..|s| - |t|] == [s[0]] + s[1..][..|s| - 1 - |t|];
      t
    else
      s
  }

  lemma {:induction false} TrimLeadingAfterSpaces(a: string, b: string)
    requires AllSpace(a)
    ensures TrimLeading(a + b) == TrimLeading(b)
    decreases |a|
  {
    if a != [] {
      assert (a + b)[1..] == a[1..] + b;
      TrimLeadingAfterSpaces(a[1..], b);
    } else {
      assert a + b == b;
    }
  }

  lemma TrimLeadingStops(s: string)
    requires s == [] || !IsSpace(s[0])
    ensures TrimLeading(s) == s
  {
  }

  lemma TrimLeadingIsIdempotent(s: string)
    ensures TrimLeading(TrimLeading(s)) == TrimLeading(s)
  {
  }

  /** `s.rstrip(c)`: every trailing occurrence of `c` is removed, and nothing else. */
  function TrimTrailing(s: string, c: char): (r: string)
    ensures |r| <= |s| && r == s[..|r|]
    ensures AllEqual(s[|r|..], c)
    ensures r == [] || r[|r| - 1] != c
    decreases |s|
  {
    if s != [] && s[|s| - 1] == c then
      var r := TrimTrailing(s[..|s| - 1], c);
      assert s[|r|..] == s[..|s| - 1][|r|..] + [c];
      r
    else
      s
  }

  /** The first whitespace-free run at the start of `s`. */
  function LeadingWord(s: string): (w: string)
    ensures |w| <= |s| && w == s[..|w|]
    ensures NoSpace(w)
    ensures |w| == |s| || IsSpace(s[|w|])
    decreases |s|
  {
    if s == [] || IsSpace(s[0]) then []
    else
      var w := LeadingWord(s[1..]);
      assert [s[0]] + w == s[..1 + |w|];
      [s[0]] + w
  }

  /** `s.split()` with no separator: the maximal whitespace-free runs of `s`, in order. */
  function Split(s: string): (words: seq<string>)
    ensures forall k :: 0 <= k < |words| ==> words[k] != [] && NoSpace(words[k])
    decreases |s|
  {
    var t := TrimLeading(s);
    if t == [] then []
    else
      var w := LeadingWord(t);
      assert |w| > 0;
      var rest := Split(t[|w|..]);
      WordsPrepend(w, rest);
      [w] + rest
  }

  /** The text `gaps[0] + words[0] + gaps[1] + ... + words[n-1] + gaps[n]`. */
  function Interleave(gaps: seq<string>, words: seq<string>): string
    requires |gaps| == |words| + 1
    decreases |words|
  {
    if words == [] then gaps[0] else gaps[0] + words[0] + Interleave(gaps[1..], words[1..])
  }

  /** `split()` returns the whitespace-free runs of `s`, in order: `s` is its words with
      whitespace gaps between them, the gaps between two words are not empty, and the first
      gap is the leading whitespace. Since the words are whitespace-free, this fixes them. */
  lemma {:induction false} SplitDecomposes(s: string) returns (gaps: seq<string>)
    ensures |gaps| == |Split(s)| + 1
    ensures forall k :: 0 <= k < |gaps| ==> AllSpace(gaps[k])
    ensures forall k :: 0 < k < |gaps| - 1 ==> gaps[k] != []
    ensures gaps[0] == s[..|s| - |TrimLeading(s)|]
    ensures s == Interleave(gaps, Split(s))
    decreases |s|
  {
    var t := TrimLeading(s);
    var lead := s[..|s| - |t|];
    SplitAt(s, |s| - |t|);
    if t == [] {
      gaps := [s];
    } else {
      var w := LeadingWord(t);
      var rest := t[|w|..];
      var words := Split(rest);
      assert Split(s) == [w] + words;
      var more := SplitDecomposes(rest);
      RestGapIsSpace(rest, more[0]);
      gaps := [lead] + more;
      GapsPrepend(lead, more, |words|);
      SplitAt(t, |w|);
      InterleaveCons(lead, w, more, words);
      Regroup(s, lead, t, w, rest);
    }
  }

  lemma GapsPrepend(lead: string, more: seq<string>, n: nat)
    requires AllSpace(lead) && |more| == n + 1
    requires forall k :: 0 <= k < |more| ==> AllSpace(more[k])
    requires forall k :: 0 < k < |more| - 1 ==> more[k] != []
    requires n > 0 ==> more[0] != []
    ensures forall k :: 0 <= k < |[lead] + more| ==> AllSpace(([lead] + more)[k])
    ensures forall k :: 0 < k < |[lead] + more| - 1 ==> ([lead] + more)[k] != []
  {
  }

  lemma InterleaveCons(lead: string, w: string, more: seq<string>, words: seq<string>)
    requires |more| == |words| + 1
    ensures Interleave([lead] + more, [w] + words) == lead + w + Interleave(more, words)
  {
    assert ([lead] + more)[1..] == more;
    assert ([w] + words)[1..] == words;
  }

  lemma Regroup(s: string, lead: string, t: string, w: string, rest: string)
    requires s == lead + t && t == w + rest
    ensures s == lead + w + rest
  {
  }

  /** What follows a leading word is empty or starts with its own (non-empty) whitespace. */
  lemma RestGapIsSpace(rest: string, gap: string)
    requires rest == [] || IsSpace(rest[0])
    requires gap == rest[..|rest| - |TrimLeading(rest)|]
    ensures rest != [] ==> gap != []
  {
    if rest != [] {
      assert |TrimLeading(rest)| < |rest|;
    }
  }

  lemma WordsPrepend(w: string, rest: seq<string>)
    requires w != [] && NoSpace(w)
    requires forall k :: 0 <= k < |rest| ==> rest[k] != [] && NoSpace(rest[k])
    ensures forall k :: 0 <= k < |[w] + rest| ==> ([w] + rest)[k] != [] && NoSpace(([w] + rest)[k])
  {
  }

  /** `sep.join(parts)`. */
  function Join(parts: seq<string>, sep: string): string
  {
    if |parts| == 0 then []
    else if |parts| == 1 then parts[0]
    else parts[0] + sep + Join(parts[1..], sep)
  }

  /** Where part `i` begins in `Join(parts, sep)`. */
  function Offset(parts: seq<string>, sep: string, i: nat): nat
    requires i < |parts|
  {
    if i == 0 then 0 else |parts[0]| + |sep| + Offset(parts[1..], sep, i - 1)
  }

  lemma SplitAt(s: string, k: nat)
    requires k <= |s|
    ensures s == s[..k] + s[k..]
  {
  }

  /** Regrouping the text around an inserted character. */
  lemma InsertRegroup(s: string, i: nat, c: char, k: nat)
    requires i <= k <= |s|
    ensures s[..i] + [c] + s[i..] == (s[..i] + [c] + s[i..k]) + s[k..]
  {
    assert s[i..] == s[i..k] + s[k..];
  }

  /** An insertion past position `k` is an insertion into the suffix from `k`. */
  lemma InsertShift(s: string, i: nat, c: char, k: nat)
    requires k <= i <= |s|
    ensures s[..i] + [c] + s[i..] == s[..k] + (s[k..][..i - k] + [c] + s[k..][i - k..])
  {
    assert s[..i] == s[..k] + s[k..][..i - k];
    assert s[i..] == s[k..][i - k..];
  }

  lemma PrefixRegroup(s: string, k: nat, kept: nat, tail: string)
    requires k <= kept <= |s|
    ensures s[..kept] + tail == s[..k] + (s[k..kept] + tail)
  {
    assert s[..kept] == s[..k] + s[k..kept];
  }

  lemma SliceOfSuffix(a: string, b: string, lo: nat, hi: nat)
    requires |a| <= lo <= hi <= |a| + |b|
    ensures (a + b)[lo..hi] == b[lo - |a|..hi - |a|]
  {
  }

  lemma SliceOfPrefix(a: string, b: string, lo: nat, hi: nat)
    requires lo <= hi <= |a|
    ensures (a + b)[lo..hi] == a[lo..hi]
  {
  }

  /** Splitting a slice at `m` gives the two slices of the whole text. */
  lemma SliceWithin(s: string, lo: nat, hi: nat, m: nat)
    requires lo + m <= hi <= |s|
    ensures s[lo..lo + m] == s[lo..hi][..m]
    ensures s[lo + m..hi] == s[lo..hi][m..]
  {
  }

  /** A run of `c` from `lo` to the end, read position by position. */
  lemma AllEqualFrom(s: string, lo: nat, c: char)
    requires lo <= |s| && AllEqual(s[lo..], c)
    ensures forall m :: lo <= m < |s| ==> s[m] == c
  {
    assert forall m :: lo <= m < |s| ==> s[lo..][m - lo] == s[m];
  }

  lemma JoinUnfold(parts: seq<string>, sep: string)
    requires |parts| > 1
    ensures Join(parts, sep) == (parts[0] + sep) + Join(parts[1..], sep)
  {
  }

  /** Part `i` of a join stands, whole, at its offset. */
  lemma {:induction false} JoinPartAt(parts: seq<string>, sep: string, i: nat)
    requires i < |parts|
    ensures Offset(parts, sep, i) + |parts[i]| <= |Join(parts, sep)|
    ensures Join(parts, sep)[Offset(parts, sep, i)..Offset(parts, sep, i) + |parts[i]|] == parts[i]
  {
    if |parts| > 1 {
      var head := parts[0] + sep;
      var rest := Join(parts[1..], sep);
      JoinUnfold(parts, sep);
      if i == 0 {
        SliceOfPrefix(head, rest, 0, |parts[0]|);
      } else {
        JoinPartAt(parts[1..], sep, i - 1);
        var o := Offset(parts[1..], sep, i - 1);
        assert parts[1..][i - 1] == parts[i];
        SliceOfSuffix(head, rest, |head| + o, |head| + o + |parts[i]|);
      }
    }
  }

  /** Every part but the last is followed by the separator. */
  lemma {:induction false} JoinSeparatorAfter(parts: seq<string>, sep: string, i: nat)
    requires i + 1 < |parts|
    ensures Offset(parts, sep, i) + |parts[i]| + |sep| <= |Join(parts, sep)|
    ensures Join(parts, sep)[Offset(parts, sep, i) + |parts[i]|..Offset(parts, sep, i) + |parts[i]| + |sep|] == sep
  {
    var head := parts[0] + sep;
    var rest := Join(parts[1..], sep);
    JoinUnfold(parts, sep);
    if i == 0 {
      SliceOfPrefix(head, rest, |parts[0]|, |parts[0]| + |sep|);
    } else {
      JoinSeparatorAfter(parts[1..], sep, i - 1);
      var o := Offset(parts[1..], sep, i - 1);
      assert parts[1..][i - 1] == parts[i];
      SliceOfSuffix(head, rest, |head| + o + |parts[i]|, |head| + o + |parts[i]| + |sep|);
    }
  }

  /** Each part but the first begins one separator after the end of the part before it. */
  lemma {:induction false} OffsetStep(parts: seq<string>, sep: string, i: nat)
    requires i + 1 < |parts|
    ensures Offset(parts, sep, i + 1) == Offset(parts, sep, i) + |parts[i]| + |sep|
  {
    if i > 0 {
      OffsetStep(parts[1..], sep, i - 1);
      assert parts[1..][i - 1] == parts[i];
    }
  }

  /** A join ends right after its last part: nothing follows it. */
  lemma {:induction false} JoinEndsAfterLastPart(parts: seq<string>, sep: string)
    requires |parts| > 0
    ensures |Join(parts, sep)| == Offset(parts, sep, |parts| - 1) + |parts[|parts| - 1]|
  {
    if |parts| > 1 {
      JoinEndsAfterLastPart(parts[1..], sep);
      assert parts[1..][|parts| - 2] == parts[|parts| - 1];
    }
  }

  /** Joins of parts that have pointwise equal lengths have equal lengths and equal offsets. */
  lemma {:induction false} JoinShapeDependsOnLengths(p: seq<string>, q: seq<string>, sep: string)
    requires |p| == |q|
    requires forall j :: 0 <= j < |p| ==> |p[j]| == |q[j]|
    ensures |Join(p, sep)| == |Join(q, sep)|
    ensures forall i :: 0 <= i < |p| ==> Offset(p, sep, i) == Offset(q, sep, i)
  {
    if |p| > 1 {
      JoinShapeDependsOnLengths(p[1..], q[1..], sep);
      forall i | 0 < i < |p|
        ensures Offset(p, sep, i) == Offset(q, sep, i)
      {
        assert Offset(p[1..], sep, i - 1) == Offset(q[1..], sep, i - 1);
      }
    }
  }

  // ------------------------------------------------------ startswith(), in

  predicate StartsWith(s: string, prefix: string) {
    |prefix| <= |s| && s[..|prefix|] == prefix
  }

  /** `pattern in s`. */
  predicate Contains(s: string, pattern: string)
    decreases |s|
  {
    StartsWith(s, pattern) || (s != [] && Contains(s[1..], pattern))
  }

  lemma {:induction false} ContainsAt(s: string, pattern: string, i: nat)
    requires i + |pattern| <= |s| && s[i..i + |pattern|] == pattern
    ensures Contains(s, pattern)
    decreases i
  {
    if i > 0 {
      assert s[1..][i - 1..i - 1 + |pattern|] == s[i..i + |pattern|];
      ContainsAt(s[1..], pattern, i - 1);
    }
  }

  /** The pattern stands at position `i` of `s`. */
  predicate StandsAt(s: string, pattern: string, i: nat) {
    i + |pattern| <= |s| && s[i..i + |pattern|] == pattern
  }

  /** `pattern in s` holds exactly when the pattern stands at some position of `s`. */
  lemma {:induction false} ContainsCharacterised(s: string, pattern: string)
    ensures Contains(s, pattern) <==> exists i: nat :: StandsAt(s, pattern, i)
    decreases |s|
  {
    if exists i: nat :: StandsAt(s, pattern, i) {
      var i: nat :| StandsAt(s, pattern, i);
      ContainsAt(s, pattern, i);
    }
    if Contains(s, pattern) {
      if StartsWith(s, pattern) {
        assert StandsAt(s, pattern, 0);
      } else {
        ContainsCharacterised(s[1..], pattern);
        var j: nat :| StandsAt(s[1..], pattern, j);
        assert s[1..][j..j + |pattern|] == s[j + 1..j + 1 + |pattern|];
        assert StandsAt(s, pattern, j + 1);
      }
    }
  }

  // ---------------------------------------------------- c * n, ljust(width)

  /** `c * n` for a one-character string `c`. */
  function Repeat(c: char, n: nat): (r: string)
    ensures |r| == n && AllEqual(r, c)
  {
    seq(n, _ => c)
  }

  /** `s.ljust(width)`: `s` unchanged, then spaces up to `width`; never truncated. */
  function LeftJustify(s: string, width: int): (r: string)
    ensures |r| == Max(|s|, width)
    ensures r[..|s|] == s
    ensures AllEqual(r[|s|..], ' ')
  {
    var r := s + Repeat(' ', if width > |s| then width - |s| else 0);
    assert r[..|s|] == s;
    assert r[|s|..] == Repeat(' ', if width > |s| then width - |s| else 0);
    r
  }

  // --------------------------------------------------------------- str(int)

  predicate IsDigit(c: char) { '0' <= c <= '9' }

  function DigitChar(d: nat): (c: char)
    requires d < 10
    ensures IsDigit(c)
  {
    ('0' as int + d) as char
  }

  function DigitValue(c: char): nat
  {
    if IsDigit(c) then c as int - '0' as int else 0
  }

  /** A non-empty run of decimal digits with no leading zero, unless it is `0` itself. */
  predicate IsNumeral(d: string) {
    && |d| > 0
    && (forall i :: 0 <= i < |d| ==> IsDigit(d[i]))
    && (d[0] == '0' ==> |d| == 1)
  }

  /** The texts `str` produces for integers: an optional minus sign, then a numeral that
      is not `0` when the sign is there. */
  predicate IsDecimalText(t: string) {
    if |t| > 0 && t[0] == '-' then IsNumeral(t[1..]) && t[1..] != "0" else IsNumeral(t)
  }

  /** `str(n)` for a non-negative `n`: decimal digits, no leading zero. */
  function NatToDecimal(n: nat): (s: string)
    ensures |s| > 0
    ensures forall i :: 0 <= i < |s| ==> IsDigit(s[i])
    ensures s[0] == '0' ==> n == 0
    ensures |s| > 1 ==> s[0] != '0'
    decreases n
  {
    if n < 10 then [DigitChar(n)] else NatToDecimal(n / 10) + [DigitChar(n % 10)]
  }

  /** `str(n)` for any integer: a decimal text with a minus sign exactly when `n` is
      negative. The length, digit and leading-zero clauses follow from `IsDecimalText(s)`;
      they are kept spelled out because the proofs about the appended LIMIT clause use them
      directly. */
  function IntToDecimal(n: int): (s: string)
    ensures |s| > 0
    ensures (s[0] == '-') == (n < 0)
    ensures forall i :: (if n < 0 then 1 else 0) <= i < |s| ==> IsDigit(s[i])
    ensures var k := if n < 0 then 1 else 0; |s| > k + 1 ==> s[k] != '0'
    ensures IsDecimalText(s)
  {
    if n < 0 then "-" + NatToDecimal(-n) else NatToDecimal(n)
  }

  /** The value of a string of decimal digits. Any other character counts as the digit
      0; only the values on numerals matter. */
  function ParseNat(s: string): nat
  {
    if s == [] then 0 else 10 * ParseNat(s[..|s| - 1]) + DigitValue(s[|s| - 1])
  }

  /** The value of an optionally signed string of decimal digits, as `int(s)` gives it for
      the texts of `IsDecimalText`. Unlike `int`, it is total: on other texts, which `int`
      rejects, it returns some number, and no property here depends on which. */
  function ParseInt(s: string): int
  {
    if s != [] && s[0] == '-' then 0 - ParseNat(s[1..]) else ParseNat(s)
  }

  lemma {:induction false} ParseNatToDecimal(n: nat)
    ensures ParseNat(NatToDecimal(n)) == n
    decreases n
  {
    if n >= 10 {
      var s := NatToDecimal(n);
      assert s[..|s| - 1] == NatToDecimal(n / 10);
      ParseNatToDecimal(n / 10);
    }
  }

  lemma ParseIntToDecimal(n: int)
    ensures ParseInt(IntToDecimal(n)) == n
  {
    if n < 0 {
      assert IntToDecimal(n)[1..] == NatToDecimal(-n);
      ParseNatToDecimal(-n);
    } else {
      ParseNatToDecimal(n);
    }
  }

  /** A numeral that does not start with `0` has a positive value. */
  lemma {:induction false} LeadingDigitPositive(d: string)
    requires |d| > 0 && (forall i :: 0 <= i < |d| ==> IsDigit(d[i])) && d[0] != '0'
    ensures ParseNat(d) > 0
    decreases |d|
  {
    if |d| > 1 {
      LeadingDigitPositive(d[..|d| - 1]);
    }
  }

  /** A numeral is the decimal text of its own value. */
  lemma {:induction false} NumeralIsNatToDecimal(d: string)
    requires IsNumeral(d)
    ensures NatToDecimal(ParseNat(d)) == d
    decreases |d|
  {
    var last := d[|d| - 1];
    if |d| > 1 {
      var front := d[..|d| - 1];
      assert front[0] == d[0];
      LeadingDigitPositive(front);
      NumeralIsNatToDecimal(front);
      assert ParseNat(d) / 10 == ParseNat(front) && ParseNat(d) % 10 == DigitValue(last);
      assert d == front + [last];
    } else {
      assert d == [last];
    }
  }

  /** Reading a decimal text back and printing the value gives the same text: with
      `ParseIntToDecimal`, a decimal text that reads as `n` is exactly `str(n)`. */
  lemma DecimalTextIsCanonical(t: string)
    requires IsDecimalText(t)
    ensures IntToDecimal(ParseInt(t)) == t
  {
    if |t| > 0 && t[0] == '-' {
      var d := t[1..];
      assert |d| == 1 ==> d == [d[0]];
      LeadingDigitPositive(d);
      NumeralIsNatToDecimal(d);
      assert t == "-" + d;
    } else {
      NumeralIsNatToDecimal(t);
    }
  }
}
