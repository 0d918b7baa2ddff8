/** Text operations the dashboards rely on: whitespace trimming (Python's `str.strip()`
    and SQL's `TRIM`), the case-sensitive substring test behind Python's `sub in s`,
    and zero-padded decimal rendering as done by `FORMAT_TIMESTAMP`. */
module Text {
  import opened Seqs

  /** Whitespace in the sense of the Unicode White_Space property: tab, line feed,
      vertical tab, form feed, carriage return, space, next line, no-break space and the
      Unicode space separators. */
  predicate IsSpace(c: char) {
    ('\t' <= c <= '\r') || c == ' ' || c == '\U{85}' || c == '\U{A0}' || c == '\U{1680}'
    || ('\U{2000}' <= c <= '\U{200A}') || c == '\U{2028}' || c == '\U{2029}'
    || c == '\U{202F}' || c == '\U{205F}' || c == '\U{3000}'
  }

  /** Number of whitespace characters at the start of `s`. */
  function Leading(s: string): (k: nat)
    ensures k <= |s|
    ensures forall i :: 0 <= i < k ==> IsSpace(s[i])
    ensures k < |s| ==> !IsSpace(s[k])
  {
    if |s| > 0 && IsSpace(s[0]) then 1 + Leading(s[1..]) else 0
  }

  /** Number of whitespace characters at the end of `s`. */
  function Trailing(s: string): (k: nat)
    ensures k <= |s|
    ensures forall i :: |s| - k <= i < |s| ==> IsSpace(s[i])
    ensures k < |s| ==> !IsSpace(s[|s| - 1 - k])
  {
    if |s| > 0 && IsSpace(s[|s| - 1]) then 1 + Trailing(s[..|s| - 1]) else 0
  }

  /** `s.strip()`: `s` without its leading and trailing whitespace. */
  function Trim(s: string): (r: string)
    ensures |r| <= |s|
  {
    var t := s[Leading(s)..];
    t[..|t| - Trailing(t)]
  }

  /** What stripping keeps and removes: the result is the slice of `s` that starts at the
      first non-space character, everything cut away on either side is whitespace, and
      the result neither starts nor ends with whitespace. */
  lemma TrimSpec(s: string)
    ensures |Trim(s)| <= |s| - Leading(s)
    ensures forall i :: 0 <= i < |Trim(s)| ==> Trim(s)[i] == s[Leading(s) + i]
    ensures forall i :: Leading(s) + |Trim(s)| <= i < |s| ==> IsSpace(s[i])
    ensures Trim(s) != [] ==> !IsSpace(Trim(s)[0]) && !IsSpace(Trim(s)[|Trim(s)| - 1])
  {
  }

  /** Stripping twice is stripping once. */
  lemma TrimIdempotent(s: string)
    ensures Trim(Trim(s)) == Trim(s)
  {
    var r := Trim(s);
    TrimSpec(s);
    assert Leading(r) == 0;
    assert Trailing(r[Leading(r)..]) == 0 by {
      assert r[Leading(r)..] == r;
    }
  }

  /** Each label stripped of surrounding whitespace. */
  function StripEach(labels: seq<string>): (r: seq<string>)
    ensures |r| == |labels|
    ensures forall i :: 0 <= i < |labels| ==> r[i] == Trim(labels[i])
  {
    if labels == [] then []
    else
      var rest := StripEach(labels[1..]);
      [Trim(labels[0])] + rest
  }

  /** `list(set(x.strip() for x in labels))`: every stripped label exactly once. Python's
      set has no defined order; this one keeps the order of first occurrence. */
  function StrippedDistinct(labels: seq<string>): (r: seq<string>)
    ensures Distinct(r)
    ensures forall i :: 0 <= i < |r| ==> exists j :: 0 <= j < |labels| && r[i] == Trim(labels[j])
    ensures forall j :: 0 <= j < |labels| ==> Trim(labels[j]) in r
  {
    var stripped := StripEach(labels);
    var r := Dedup(stripped);
    assert forall i :: 0 <= i < |r| ==> exists j :: 0 <= j < |labels| && r[i] == Trim(labels[j]) by {
      forall i | 0 <= i < |r| ensures exists j :: 0 <= j < |labels| && r[i] == Trim(labels[j]) {
        assert r[i] in stripped;
        var j :| 0 <= j < |stripped| && stripped[j] == r[i];
      }
    }
    assert forall j :: 0 <= j < |labels| ==> Trim(labels[j]) in r by {
      forall j | 0 <= j < |labels| ensures Trim(labels[j]) in r {
        assert stripped[j] == Trim(labels[j]);
      }
    }
    r
  }

  /** A text is listed exactly when it is the strip of some input label. */
  lemma StrippedDistinctValues(labels: seq<string>, e: string)
    ensures e in StrippedDistinct(labels) <==> exists l :: l in labels && Trim(l) == e
  {
    var r := StrippedDistinct(labels);
    if e in r {
      var i :| 0 <= i < |r| && r[i] == e;
      var j :| 0 <= j < |labels| && r[i] == Trim(labels[j]);
      assert labels[j] in labels;
    }
    if exists l :: l in labels && Trim(l) == e {
      var l :| l in labels && Trim(l) == e;
      var j :| 0 <= j < |labels| && labels[j] == l;
      assert Trim(labels[j]) in r;
    }
  }

  /** The labels it returns are already stripped. */
  lemma StrippedDistinctIsStripped(labels: seq<string>, i: nat)
    requires i < |StrippedDistinct(labels)|
    ensures Trim(StrippedDistinct(labels)[i]) == StrippedDistinct(labels)[i]
  {
    var j :| 0 <= j < |labels| && StrippedDistinct(labels)[i] == Trim(labels[j]);
    TrimIdempotent(labels[j]);
  }

  /** `sub` occurs in `s` starting at position `i`. */
  predicate OccursAt(s: string, sub: string, i: int) {
    0 <= i && i + |sub| <= |s| && s[i..i + |sub|] == sub
  }

  /** Python's `sub in s`: whether `sub` occurs in `s` at some position (case-sensitive). */
  function Contains(s: string, sub: string): (b: bool)
    ensures b <==> exists i :: OccursAt(s, sub, i)
    decreases |s|
  {
    if |sub| > |s| then false
    else if s[..|sub|] == sub then
      assert OccursAt(s, sub, 0);
      true
    else
      var b := Contains(s[1..], sub);
      assert b ==> exists i :: OccursAt(s, sub, i) by {
        if b {
          var i :| OccursAt(s[1..], sub, i);
          assert s[i + 1..i + 1 + |sub|] == s[1..][i..i + |sub|];
          assert OccursAt(s, sub, i + 1);
        }
      }
      assert (exists i :: OccursAt(s, sub, i)) ==> b by {
        if exists i :: OccursAt(s, sub, i) {
          var i :| OccursAt(s, sub, i);
          assert i != 0;
          assert s[1..][i - 1..i - 1 + |sub|] == s[i..i + |sub|];
          assert OccursAt(s[1..], sub, i - 1);
        }
      }
      b
  }

  /** The order of `ORDER BY` on strings: character by character by code point, a
      proper prefix before its extensions. */
  function LexLess(a: string, b: string): bool
    decreases |a|
  {
    if b == [] then false
    else if a == [] then true
    else if a[0] != b[0] then a[0] < b[0]
    else LexLess(a[1..], b[1..])
  }

  lemma {:induction false} LexLessIrreflexive(a: string)
    ensures !LexLess(a, a)
    decreases |a|
  {
    if a != [] {
      LexLessIrreflexive(a[1..]);
    }
  }

  /** Two different strings are ordered one way or the other. */
  lemma {:induction false} LexLessTotal(a: string, b: string)
    requires a != b
    ensures LexLess(a, b) || LexLess(b, a)
    decreases |a|
  {
    if a != [] && b != [] && a[0] == b[0] {
      assert a == [a[0]] + a[1..] && b == [b[0]] + b[1..];
      LexLessTotal(a[1..], b[1..]);
    }
  }

  lemma {:induction false} LexLessTrans(a: string, b: string, c: string)
    requires LexLess(a, b) && LexLess(b, c)
    ensures LexLess(a, c)
    decreases |a|
  {
    if a != [] && a[0] == b[0] && b[0] == c[0] {
      LexLessTrans(a[1..], b[1..], c[1..]);
    }
  }

  /** The character of decimal digit `d`. */
  function Digit(d: nat): (c: char)
    requires d < 10
    ensures '0' <= c <= '9'
  {
    ('0' as int + d) as char
  }

  /** The value of a decimal digit character. */
  function DigitValue(c: char): (d: nat)
    requires '0' <= c <= '9'
    ensures d < 10
  {
    (c as int - '0' as int) as nat
  }

  /** `z` zero characters. */
  function Zeros(z: nat): (r: string)
    ensures |r| == z && AllDigits(r)
    ensures forall i :: 0 <= i < z ==> r[i] == '0'
  {
    if z == 0 then [] else Zeros(z - 1) + ['0']
  }

  predicate AllDigits(s: string) {
    forall i :: 0 <= i < |s| ==> '0' <= s[i] <= '9'
  }

  /** Decimal rendering of `n`, without leading zeros. */
  function Decimal(n: nat): (r: string)
    ensures |r| >= 1 && AllDigits(r)
  {
    if n < 10 then [Digit(n)] else Decimal(n / 10) + [Digit(n % 10)]
  }

  /** Reading a string of digits back as a number. */
  function ParseDecimal(s: string): (n: nat)
    requires AllDigits(s)
  {
    if s == [] then 0 else 10 * ParseDecimal(s[..|s| - 1]) + DigitValue(s[|s| - 1])
  }

  /** The `%m`, `%d` and `%Y` fields: `n` in decimal, left-padded with zeros to `width`. */
  function ZeroPad(n: nat, width: nat): (r: string)
    ensures |r| >= width && AllDigits(r)
  {
    var d := Decimal(n);
    if |d| >= width then d else Zeros(width - |d|) + d
  }

  lemma {:induction false} DecimalRoundTrip(n: nat)
    ensures ParseDecimal(Decimal(n)) == n
  {
    if n >= 10 {
      DecimalRoundTrip(n / 10);
      var s := Decimal(n);
      assert s == Decimal(n / 10) + [Digit(n % 10)];
      assert s[..|s| - 1] == Decimal(n / 10);
      assert DigitValue(s[|s| - 1]) == n % 10;
    }
  }

  lemma {:induction false} LeadingZerosIgnored(z: nat, s: string)
    requires AllDigits(s)
    ensures AllDigits(Zeros(z) + s)
    ensures ParseDecimal(Zeros(z) + s) == ParseDecimal(s)
  {
    var t := Zeros(z) + s;
    if s == [] {
      assert t == Zeros(z);
      if z > 0 {
        LeadingZerosIgnored(z - 1, s);
        assert t[..|t| - 1] == Zeros(z - 1) + s;
      }
    } else {
      LeadingZerosIgnored(z, s[..|s| - 1]);
      assert t[..|t| - 1] == Zeros(z) + s[..|s| - 1];
    }
  }

  /** Zero-padding loses nothing: the padded text reads back as the number. */
  lemma {:induction false} ZeroPadRoundTrip(n: nat, width: nat)
    ensures ParseDecimal(ZeroPad(n, width)) == n
  {
    DecimalRoundTrip(n);
    var d := Decimal(n);
    var p := ZeroPad(n, width);
    if |d| < width {
      var z := Zeros(width - |d|);
      LeadingZerosIgnored(width - |d|, d);
      assert p == z + d;
      assert ParseDecimal(z + d) == n;
    } else {
      assert p == d;
    }
  }

  function Pow10(k: nat): (p: nat)
    ensures p >= 1
  {
    if k == 0 then 1 else 10 * Pow10(k - 1)
  }

  /** A number below `10^k` takes at most `k` digits. */
  lemma {:induction false} DecimalFits(n: nat, k: nat)
    requires 1 <= k && n < Pow10(k)
    ensures |Decimal(n)| <= k
  {
    if n >= 10 {
      assert k >= 2;
      assert n / 10 < Pow10(k - 1);
      DecimalFits(n / 10, k - 1);
    }
  }

  /** A number below `10^width` pads to exactly `width` digits. */
  lemma ZeroPadFits(n: nat, width: nat)
    requires 1 <= width && n < Pow10(width)
    ensures |ZeroPad(n, width)| == width
  {
    DecimalFits(n, width);
  }
}
