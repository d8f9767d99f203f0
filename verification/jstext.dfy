/** String helpers with JavaScript's meaning: the whitespace class `\s`,
    `trim`, global literal `replace`, `join`, ASCII case folding, decimal
    rendering of integers and `parseInt(s, 10)`.
    One `char` is one Unicode scalar value. JavaScript's `length` and
    `slice` count UTF-16 code units instead; the two counts agree on text
    inside the Basic Multilingual Plane. */
module JsText {
  import opened Common

  // ---------------------------------------------------------------------
  // Whitespace and trimming

  /** The characters matched by `\s` and removed by `String.prototype.trim`:
      the WhiteSpace and LineTerminator productions of ECMAScript. */
  predicate IsSpace(c: char) {
    || c == ' ' || c == '\t' || c == '\n' || c == '\U{000B}' || c == '\U{000C}' || c == '\r'
    || c == '\U{00A0}' || c == '\U{1680}' || ('\U{2000}' <= c <= '\U{200A}')
    || c == '\U{2028}' || c == '\U{2029}' || c == '\U{202F}' || c == '\U{205F}'
    || c == '\U{3000}' || c == '\U{FEFF}'
  }

  /** Neither end of `s` is whitespace: what `trim` produces. */
  predicate NoEdgeSpace(s: string) {
    |s| == 0 || (!IsSpace(s[0]) && !IsSpace(s[|s| - 1]))
  }

  /** Length of the maximal whitespace run at the start of `s`. */
  function LeadingSpaces(s: string): (n: nat)
    ensures n <= |s|
    ensures forall i :: 0 <= i < n ==> IsSpace(s[i])
    ensures n < |s| ==> !IsSpace(s[n])
  {
    if |s| > 0 && IsSpace(s[0]) then 1 + LeadingSpaces(s[1..]) else 0
  }

  /** Length of the maximal whitespace run at the end of `s`. */
  function TrailingSpaces(s: string): (n: nat)
    ensures n <= |s|
    ensures forall i :: |s| - n <= i < |s| ==> IsSpace(s[i])
    ensures n < |s| ==> !IsSpace(s[|s| - n - 1])
  {
    if |s| > 0 && IsSpace(s[|s| - 1]) then 1 + TrailingSpaces(s[..|s| - 1]) else 0
  }

  /** `String.prototype.trim`: the infix of `s` left after removing the
      whitespace runs at both ends. */
  function Trim(s: string): (r: string)
    ensures NoEdgeSpace(r)
    ensures LeadingSpaces(s) + |r| <= |s|
    ensures r == s[LeadingSpaces(s)..LeadingSpaces(s) + |r|]
    ensures forall i :: LeadingSpaces(s) + |r| <= i < |s| ==> IsSpace(s[i])
    ensures NoEdgeSpace(s) ==> r == s
  {
    var rest := s[LeadingSpaces(s)..];
    rest[..|rest| - TrailingSpaces(rest)]
  }

  /** Trimming twice is trimming once. */
  lemma TrimIdempotent(s: string)
    ensures Trim(Trim(s)) == Trim(s)
  {
  }

  /** A string of whitespace only trims to the empty string. */
  lemma TrimAllSpace(s: string)
    requires forall i :: 0 <= i < |s| ==> IsSpace(s[i])
    ensures Trim(s) == ""
  {
    assert LeadingSpaces(s) == |s|;
  }

  // ---------------------------------------------------------------------
  // Literal search

  /** `p` occurs in `s` at index `i`. */
  predicate OccursAt(s: string, p: string, i: nat) {
    i + |p| <= |s| && s[i..i + |p|] == p
  }

  predicate StartsWith(s: string, p: string) {
    |p| <= |s| && s[..|p|] == p
  }

  /** A text whose first character differs from the first character of
      a non-empty `p` does not start with `p`. */
  lemma HeadsDiffer(s: string, p: string)
    requires |p| > 0 && (|s| == 0 || s[0] != p[0])
    ensures !StartsWith(s, p)
  {
    if |p| <= |s| {
      assert s[..|p|][0] == s[0];
    }
  }

  predicate EndsWith(s: string, p: string) {
    |p| <= |s| && s[|s| - |p|..] == p
  }

  /** `s.includes(p)`, defined by scanning from the left. */
  predicate Contains(s: string, p: string)
    decreases |s|
  {
    StartsWith(s, p) || (|s| > 0 && Contains(s[1..], p))
  }

  /** An occurrence inside a suffix is an occurrence in the whole. */
  lemma {:induction false} ContainsSuffix(s: string, k: nat, p: string)
    requires k <= |s|
    requires Contains(s[k..], p)
    ensures Contains(s, p)
    decreases k
  {
    if k > 0 {
      assert s[1..][k - 1..] == s[k..];
      ContainsSuffix(s[1..], k - 1, p);
    }
  }

  /** An occurrence inside a prefix is an occurrence in the whole. */
  lemma {:induction false} ContainsPrefix(s: string, k: nat, p: string)
    requires k <= |s|
    requires Contains(s[..k], p)
    ensures Contains(s, p)
    decreases k
  {
    if StartsWith(s[..k], p) {
      assert s[..k][..|p|] == s[..|p|];
    } else {
      assert s[..k][1..] == s[1..][..k - 1];
      ContainsPrefix(s[1..], k - 1, p);
    }
  }

  /** An occurrence inside an infix is an occurrence in the whole. */
  lemma ContainsInfix(s: string, a: nat, b: nat, p: string)
    requires a <= b <= |s|
    requires Contains(s[a..b], p)
    ensures Contains(s, p)
  {
    assert s[a..][..b - a] == s[a..b];
    ContainsPrefix(s[a..], b - a, p);
    ContainsSuffix(s, a, p);
  }

  /** `s.replace(p, rep)` with a string pattern: only the first occurrence
      is replaced. */
  function ReplaceFirst(s: string, p: string, rep: string): (r: string)
    requires |p| > 0
    ensures !Contains(s, p) ==> r == s
    decreases |s|
  {
    if StartsWith(s, p) then rep + s[|p|..]
    else if |s| == 0 then s
    else [s[0]] + ReplaceFirst(s[1..], p, rep)
  }

  /** `s.replace(/p/g, rep)` for a literal pattern: a left-to-right scan
      that replaces non-overlapping occurrences. */
  function ReplaceAll(s: string, p: string, rep: string): (r: string)
    requires |p| > 0
    ensures |rep| <= |p| ==> |r| <= |s|
    ensures !Contains(s, p) ==> r == s
    decreases |s|
  {
    if StartsWith(s, p) then rep + ReplaceAll(s[|p|..], p, rep)
    else if |s| == 0 then s
    else [s[0]] + ReplaceAll(s[1..], p, rep)
  }

  /** Every character of a pattern that occurs in `s` occurs in `s`. */
  lemma {:induction false} ContainsHasChars(s: string, p: string, j: nat)
    requires Contains(s, p) && j < |p|
    ensures p[j] in s
    decreases |s|
  {
    if StartsWith(s, p) {
      assert s[j] == p[j];
    } else {
      ContainsHasChars(s[1..], p, j);
      assert p[j] in s[1..];
    }
  }

  /** A prefix that cannot start the pattern is copied unchanged. */
  lemma {:induction false} ReplaceAllSkip(a: string, b: string, p: string, rep: string)
    requires |p| > 0
    requires p[0] !in a
    ensures ReplaceAll(a + b, p, rep) == a + ReplaceAll(b, p, rep)
    decreases |a|
  {
    if |a| > 0 {
      assert !StartsWith(a + b, p) by {
        if |p| <= |a + b| {
          assert (a + b)[..|p|][0] == a[0] != p[0];
        }
      }
      assert (a + b)[1..] == a[1..] + b;
      assert ReplaceAll(a + b, p, rep) == [a[0]] + ReplaceAll(a[1..] + b, p, rep);
      ReplaceAllSkip(a[1..], b, p, rep);
      assert a == [a[0]] + a[1..];
    } else {
      assert a + b == b;
    }
  }

  /** An occurrence at the start, then text without the pattern's first
      character: both are passed over and scanning resumes at `q`. */
  lemma ReplaceAllAround(p: string, t: string, q: string, rep: string)
    requires |p| > 0 && p[0] !in t
    ensures ReplaceAll(p + t + q, p, rep) == rep + t + ReplaceAll(q, p, rep)
  {
    assert p + t + q == p + (t + q);
    ReplaceAllHead(t + q, p, rep);
    ReplaceAllSkip(t, q, p, rep);
    assert rep + (t + ReplaceAll(q, p, rep)) == rep + t + ReplaceAll(q, p, rep);
  }

  /** An occurrence at the start is replaced and scanning resumes after it. */
  lemma ReplaceAllHead(b: string, p: string, rep: string)
    requires |p| > 0
    ensures ReplaceAll(p + b, p, rep) == rep + ReplaceAll(b, p, rep)
  {
    assert (p + b)[..|p|] == p;
    assert (p + b)[|p|..] == b;
  }

  /** If the output of a replacement starts with `u`, and `u` does not
      contain the replacement character, the input started with `u` too. */
  lemma {:induction false} ReplaceAllPrefix(t: string, p: string, c: char, u: string)
    requires |p| > 0
    requires forall i :: 0 <= i < |u| ==> u[i] != c
    requires StartsWith(ReplaceAll(t, p, [c]), u)
    ensures StartsWith(t, u)
    decreases |t|
  {
    if |u| > 0 {
      var r := ReplaceAll(t, p, [c]);
      assert r[0] == u[0] != c;
      if StartsWith(t, p) {
        assert false;
      } else {
        assert |t| > 0;
        assert r == [t[0]] + ReplaceAll(t[1..], p, [c]);
        assert StartsWith(ReplaceAll(t[1..], p, [c]), u[1..]) by {
          assert r[1..][..|u| - 1] == r[..|u|][1..];
        }
        ReplaceAllPrefix(t[1..], p, c, u[1..]);
        assert t[..|u|] == [t[0]] + t[1..][..|u| - 1];
      }
    }
  }


  /** After replacing every `p` by a character that does not occur in `p`,
      no `p` is left. */
  lemma {:induction false} ReplaceAllRemoves(s: string, p: string, c: char)
    requires |p| > 0
    requires forall i :: 0 <= i < |p| ==> p[i] != c
    ensures !Contains(ReplaceAll(s, p, [c]), p)
    decreases |s|
  {
    var r := ReplaceAll(s, p, [c]);
    if StartsWith(s, p) {
      ReplaceAllRemoves(s[|p|..], p, c);
      assert r[1..] == ReplaceAll(s[|p|..], p, [c]);
      assert r[0] == c;
    } else if |s| > 0 {
      ReplaceAllRemoves(s[1..], p, c);
      assert r[1..] == ReplaceAll(s[1..], p, [c]);
      if StartsWith(r, p) {
        assert StartsWith(ReplaceAll(s[1..], p, [c]), p[1..]) by {
          assert r[1..][..|p| - 1] == r[..|p|][1..];
        }
        ReplaceAllPrefix(s[1..], p, c, p[1..]);
        assert false;
      }
    }
  }

  /** Replacing `p` by a character that does not occur in `q` cannot create
      an occurrence of `q`. */
  lemma {:induction false} ReplaceAllKeepsAbsent(s: string, p: string, c: char, q: string)
    requires |p| > 0 && |q| > 0
    requires forall i :: 0 <= i < |q| ==> q[i] != c
    requires !Contains(s, q)
    ensures !Contains(ReplaceAll(s, p, [c]), q)
    decreases |s|
  {
    var r := ReplaceAll(s, p, [c]);
    if StartsWith(s, p) {
      if Contains(s[|p|..], q) {
        ContainsSuffix(s, |p|, q);
      }
      ReplaceAllKeepsAbsent(s[|p|..], p, c, q);
      assert r[1..] == ReplaceAll(s[|p|..], p, [c]);
      assert r[0] == c;
    } else if |s| > 0 {
      ReplaceAllKeepsAbsent(s[1..], p, c, q);
      assert r[1..] == ReplaceAll(s[1..], p, [c]);
      if StartsWith(r, q) {
        assert StartsWith(ReplaceAll(s[1..], p, [c]), q[1..]) by {
          assert r[1..][..|q| - 1] == r[..|q|][1..];
        }
        ReplaceAllPrefix(s[1..], p, c, q[1..]);
        assert false;
      }
    }
  }

  // ---------------------------------------------------------------------
  // Joining

  /** `xs.join(sep)`. */
  function Join(xs: seq<string>, sep: string): (r: string)
    ensures |sep| > 0 ==> (r == "" <==> |xs| == 0 || (|xs| == 1 && xs[0] == ""))
  {
    if |xs| == 0 then ""
    else if |xs| == 1 then xs[0]
    else xs[0] + sep + Join(xs[1..], sep)
  }

  /** Joining one more element appends the separator and that element. */
  lemma {:induction false} JoinAppend(xs: seq<string>, x: string, sep: string)
    requires |xs| > 0
    ensures Join(xs + [x], sep) == Join(xs, sep) + sep + x
  {
    if |xs| > 1 {
      assert (xs + [x])[1..] == xs[1..] + [x];
      JoinAppend(xs[1..], x, sep);
    }
  }

  // ---------------------------------------------------------------------
  // ASCII case folding (the `i` flag of a regular expression without `u`
  // never folds a non-ASCII character onto an ASCII one)

  function AsciiLower(c: char): char {
    if 'A' <= c <= 'Z' then (c as int + 32) as char else c
  }

  /** `p` occurs at index `i` of `s`, ignoring ASCII case. */
  predicate MatchesAtIgnoreCase(s: string, i: nat, p: string) {
    i + |p| <= |s| && forall j :: 0 <= j < |p| ==> SameLetterAt(s, i, p, j)
  }

  /** Character `i + j` of `s` and character `j` of `p` agree, ignoring
      ASCII case. */
  predicate SameLetterAt(s: string, i: nat, p: string, j: nat)
    requires i + j < |s| && j < |p|
  {
    AsciiLower(s[i + j]) == AsciiLower(p[j])
  }

  // ---------------------------------------------------------------------
  // Decimal integers

  predicate IsDigit(c: char) {
    '0' <= c <= '9'
  }

  predicate AllDigits(s: string) {
    forall i :: 0 <= i < |s| ==> IsDigit(s[i])
  }

  function DigitChar(d: nat): (c: char)
    requires d < 10
    ensures IsDigit(c)
  {
    ('0' as int + d) as char
  }

  /** The value of a string of decimal digits, most significant first. */
  function DigitsValue(s: string): nat
    requires AllDigits(s)
  {
    if |s| == 0 then 0
    else DigitsValue(s[..|s| - 1]) * 10 + (s[|s| - 1] as int - '0' as int)
  }

  /** `String(n)` for a non-negative integral number. */
  function NatToString(n: nat): (r: string)
    ensures |r| > 0 && AllDigits(r)
  {
    if n < 10 then [DigitChar(n)] else NatToString(n / 10) + [DigitChar(n % 10)]
  }

  /** `String(n)` for an integral number. */
  function IntToString(i: int): (r: string)
    ensures |r| > 0
  {
    if i < 0 then "-" + NatToString(-i) else NatToString(i)
  }

  /** Reading back the digits `NatToString` wrote gives the number. */
  lemma {:induction false} NatToStringRoundTrip(n: nat)
    ensures DigitsValue(NatToString(n)) == n
  {
    var s := NatToString(n);
    if n >= 10 {
      NatToStringRoundTrip(n / 10);
      assert s[..|s| - 1] == NatToString(n / 10);
    }
  }

  /** Length of the maximal run of decimal digits at the start of `s`. */
  function LeadingDigits(s: string): (n: nat)
    ensures n <= |s|
    ensures AllDigits(s[..n])
    ensures n < |s| ==> !IsDigit(s[n])
  {
    if |s| > 0 && IsDigit(s[0]) then 1 + LeadingDigits(s[1..]) else 0
  }

  /** `parseInt(s, 10)`: skip leading whitespace, read an optional sign,
      then the longest run of decimal digits; no digit at all is `NaN`
      (here `None`). Anything after the digits is ignored. */
  function ParseIntPrefix(s: string): Option<int> {
    var t := s[LeadingSpaces(s)..];
    var negative := |t| > 0 && t[0] == '-';
    var u := if |t| > 0 && (t[0] == '-' || t[0] == '+') then t[1..] else t;
    var d := LeadingDigits(u);
    if d == 0 then None
    else if negative then Some(0 - DigitsValue(u[..d]))
    else Some(DigitsValue(u[..d]) as int)
  }

  /** `parseInt(String(i), 10) == i` for every integer `i`. */
  lemma ParseIntRoundTrip(i: int)
    ensures ParseIntPrefix(IntToString(i)) == Some(i)
  {
    var s := IntToString(i);
    var n: nat := if i < 0 then -i else i;
    var digits := NatToString(n);
    NatToStringRoundTrip(n);
    assert LeadingSpaces(s) == 0;
    var u := if i < 0 then s[1..] else s;
    assert u == digits;
    assert LeadingDigits(u) == |u|;
    assert u[..|u|] == digits;
  }
}
