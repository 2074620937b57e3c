/**
 * The Python built-ins the codec and the command engine lean on, stated on
 * byte strings: `bytes.find`, slicing with Python's index normalisation,
 * `str(int)`, `int(bytes)`, `str.lower` and `bytes.count`.
 */
module Builtins {
  import opened Wrappers

  /** One byte of a Python `bytes` object, kept as a character so that wire text
      reads as it does in the source. The range is not bounded by 255: every law
      below holds for all character strings, and so for byte strings. */
  type Byte = char
  type Bytes = seq<Byte>

  const CRLF: Bytes := "\r\n"

  predicate IsDigit(c: Byte) { '0' <= c <= '9' }

  predicate AllDigits(s: Bytes) { forall k :: 0 <= k < |s| ==> IsDigit(s[k]) }

  /** A CRLF pair starts at index `k` of `s`. */
  predicate CrlfAt(s: Bytes, k: int)
    requires 0 <= k < |s| - 1
  {
    s[k] == '\r' && s[k + 1] == '\n'
  }

  /** No CRLF pair occurs anywhere in `s`. */
  predicate NoCrlf(s: Bytes) {
    forall k :: 0 <= k < |s| - 1 ==> !CrlfAt(s, k)
  }

  /** `s.find(b"\r\n")`: the index of the first CRLF pair, or -1 when there is none. */
  function Find(s: Bytes): (i: int)
    ensures i == -1 || 0 <= i <= |s| - 2
    ensures i == -1 ==> NoCrlf(s)
    ensures 0 <= i ==> CrlfAt(s, i) && NoCrlf(s[..i + 1])
  {
    if |s| < 2 then -1
    else if s[0] == '\r' && s[1] == '\n' then 0
    else
      var j := Find(s[1..]);
      var m := if j == -1 then |s| else j + 2;
      NoCrlfShift(s, m);
      assert j == -1 ==> s[..m] == s && s[1..][..m - 1] == s[1..];
      assert j != -1 ==> CrlfAt(s[1..], j) == CrlfAt(s, j + 1);
      if j == -1 then -1 else j + 1
  }

  /** Past a first position that starts no CRLF, the prefixes of `s` and of `s[1..]`
      hold the same CRLF pairs, one index apart. */
  lemma NoCrlfShift(s: Bytes, m: int)
    requires 2 <= |s| && 1 <= m <= |s| && !CrlfAt(s, 0)
    ensures NoCrlf(s[..m]) <==> NoCrlf(s[1..][..m - 1])
  {
    var p, q := s[..m], s[1..][..m - 1];
    forall k | 1 <= k < |p| - 1
      ensures CrlfAt(p, k) == CrlfAt(q, k - 1)
    {
      assert p[k] == q[k - 1] && p[k + 1] == q[k];
    }
    if m >= 2 {
      assert CrlfAt(p, 0) == CrlfAt(s, 0);
    }
    if NoCrlf(q) {
      forall k | 0 <= k < |p| - 1
        ensures !CrlfAt(p, k)
      {
        if k > 0 {
          assert !CrlfAt(q, k - 1);
        }
      }
    }
    if NoCrlf(p) {
      forall k | 0 <= k < |q| - 1
        ensures !CrlfAt(q, k)
      {
        assert !CrlfAt(p, k + 1);
      }
    }
  }

  /** A CRLF at `k` with none before it is what `find` reports. */
  lemma {:induction false} FindAt(s: Bytes, k: int)
    requires 0 <= k < |s| - 1 && CrlfAt(s, k)
    requires NoCrlf(s[..k + 1])
    ensures Find(s) == k
  {
    if k > 0 {
      assert !CrlfAt(s[..k + 1], 0);
      NoCrlfShift(s, k + 1);
      assert CrlfAt(s[1..], k - 1);
      FindAt(s[1..], k - 1);
    }
  }

  /** Python's normalisation of a slice bound `i` for a sequence of length `n`:
      negative bounds count from the end, and both ends are clamped. */
  function Bound(i: int, n: nat): (b: nat)
    ensures b <= n
    ensures 0 <= i <= n ==> b == i
    ensures i < 0 && 0 <= n + i ==> b == n + i
  {
    if i < 0 then (if n + i < 0 then 0 else n + i) else if i > n then n else i
  }

  /** `s[i:j]` */
  function Slice(s: Bytes, i: int, j: int): (r: Bytes)
    ensures 0 <= i <= j <= |s| ==> r == s[i..j]
    ensures |r| <= |s|
  {
    var a, b := Bound(i, |s|), Bound(j, |s|);
    if a < b then s[a..b] else []
  }

  /** `s[i:]`: never longer than `s`, and strictly shorter when `i` is positive. */
  function Tail(s: Bytes, i: int): (r: Bytes)
    ensures 0 <= i <= |s| ==> r == s[i..]
    ensures |r| <= |s|
    ensures 0 < i && 0 < |s| ==> |r| < |s|
  {
    s[Bound(i, |s|)..]
  }

  /** `r` is what is left of `d` once a prefix is taken off. */
  predicate SuffixOf(r: Bytes, d: Bytes) { |r| <= |d| && r == d[|d| - |r|..] }

  /** `s[i:]` is a suffix of `s`. */
  lemma TailIsSuffix(s: Bytes, i: int)
    ensures SuffixOf(Tail(s, i), s)
  {
  }

  lemma SuffixOfSuffix(a: Bytes, b: Bytes, c: Bytes)
    requires SuffixOf(b, a) && SuffixOf(c, b)
    ensures SuffixOf(c, a)
  {
    assert a[|a| - |c|..] == a[|a| - |b|..][|b| - |c|..];
  }

  /** `s.startswith(p)` */
  predicate StartsWith(s: Bytes, p: Bytes) { |p| <= |s| && s[..|p|] == p }

  /** `s.count(c)` for a single byte. */
  function Count(s: Bytes, c: Byte): (n: nat)
    ensures n <= |s|
    ensures n == 0 <==> forall k :: 0 <= k < |s| ==> s[k] != c
  {
    if s == [] then 0 else (if s[0] == c then 1 else 0) + Count(s[1..], c)
  }

  lemma {:induction false} CountConcat(a: Bytes, b: Bytes, c: Byte)
    ensures Count(a + b, c) == Count(a, c) + Count(b, c)
  {
    if a == [] {
      assert a + b == b;
    } else {
      assert (a + b)[1..] == a[1..] + b;
      CountConcat(a[1..], b, c);
    }
  }

  /** `str.lower()` on ASCII letters; other bytes are left as they are. */
  function LowerByte(c: Byte): Byte {
    if 'A' <= c <= 'Z' then (c as int + 32) as char else c
  }

  function Lower(s: Bytes): (r: Bytes)
    ensures |r| == |s|
    ensures forall k :: 0 <= k < |r| ==> !('A' <= r[k] <= 'Z')
    ensures forall k :: 0 <= k < |s| && !('A' <= s[k] <= 'Z') ==> r[k] == s[k]
    ensures forall k :: 0 <= k < |s| && 'A' <= s[k] <= 'Z' ==> r[k] as int == s[k] as int + 32
  {
    seq(|s|, k requires 0 <= k < |s| => LowerByte(s[k]))
  }

  function DigitChar(d: nat): (c: Byte)
    requires d < 10
    ensures IsDigit(c) && c as int - '0' as int == d
  {
    ('0' as int + d) as char
  }

  /** The decimal digits of `n`, most significant first, without leading zeros. */
  function Digits(n: nat): (r: Bytes)
    ensures |r| > 0 && AllDigits(r)
  {
    if n < 10 then [DigitChar(n)] else Digits(n / 10) + [DigitChar(n % 10)]
  }

  /** The number a non-empty run of decimal digits denotes. */
  function DigitsValue(s: Bytes): nat
    requires AllDigits(s)
  {
    if s == [] then 0
    else DigitsValue(s[..|s| - 1]) * 10 + (s[|s| - 1] as int - '0' as int)
  }

  /** `str(i)`, which is also what the f-strings of the source print for an int. */
  function Decimal(i: int): (r: Bytes)
    ensures |r| > 0
    ensures forall k :: 0 <= k < |r| ==> r[k] == '-' || IsDigit(r[k])
    ensures r[0] == '-' <==> i < 0
    ensures AllDigits(r) <==> i >= 0
  {
    if i < 0 then "-" + Digits(-i) else Digits(i)
  }

  /** A positive number's digits do not start with `0`. */
  lemma {:induction false} DigitsNoLeadingZero(n: nat)
    requires n >= 1
    ensures Digits(n)[0] != '0'
  {
    if n >= 10 {
      DigitsNoLeadingZero(n / 10);
    }
  }

  /** `str(i)` is canonical: `0` alone for zero, and otherwise no zero right after the
      optional sign, so every integer has exactly one spelling on the wire. */
  lemma DecimalCanonical(i: int)
    ensures i == 0 ==> Decimal(i) == "0"
    ensures i > 0 ==> Decimal(i)[0] != '0'
    ensures i < 0 ==> |Decimal(i)| > 1 && Decimal(i)[1] != '0'
  {
    if i > 0 {
      DigitsNoLeadingZero(i);
    } else if i < 0 {
      DigitsNoLeadingZero(-i);
      assert Decimal(i)[1..] == Digits(-i);
    }
  }

  /** `int(s)`: an optional sign followed by one or more decimal digits; None stands
      for the ValueError Python raises on anything else. */
  function ParseInt(s: Bytes): (r: Option<int>)
    ensures r.Some? ==> |s| > 0 && (s[0] == '-' || s[0] == '+' || IsDigit(s[0]))
    ensures r.Some? && r.value < 0 ==> s[0] == '-'
    ensures |s| > 0 && AllDigits(s) ==> r == Some(DigitsValue(s))
  {
    if |s| > 0 && (s[0] == '-' || s[0] == '+') then
      var m := ParseNat(s[1..]);
      if m.None? then None
      else if s[0] == '-' then Some(-(m.value as int))
      else Some(m.value as int)
    else
      var m := ParseNat(s);
      if m.None? then None else Some(m.value)
  }

  function ParseNat(s: Bytes): Option<nat> {
    if |s| > 0 && AllDigits(s) then Some(DigitsValue(s)) else None
  }

  /** The texts `int` accepts, exactly: digits, or a sign followed by digits; and the
      value of each signed form. */
  lemma ParseIntForms(s: Bytes)
    ensures ParseInt(s).Some? <==>
      |s| > 0 && (AllDigits(s) || ((s[0] == '-' || s[0] == '+') && |s| > 1 && AllDigits(s[1..])))
    ensures |s| > 1 && s[0] == '-' && AllDigits(s[1..]) ==> ParseInt(s) == Some(-(DigitsValue(s[1..]) as int))
    ensures |s| > 1 && s[0] == '+' && AllDigits(s[1..]) ==> ParseInt(s) == Some(DigitsValue(s[1..]))
  {
  }

  lemma {:induction false} DigitsRoundTrip(n: nat)
    ensures DigitsValue(Digits(n)) == n
  {
    if n >= 10 {
      var d := Digits(n);
      assert d[..|d| - 1] == Digits(n / 10);
      DigitsRoundTrip(n / 10);
    }
  }

  /** Reading back what `str` printed gives the same integer. */
  lemma ParseDecimal(i: int)
    ensures ParseInt(Decimal(i)) == Some(i)
  {
    if i < 0 {
      DigitsRoundTrip(-i);
      assert Decimal(i)[1..] == Digits(-i);
    } else {
      DigitsRoundTrip(i);
    }
  }
}
