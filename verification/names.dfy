/** File names of segments: the base offset as twenty decimal digits, with ".log" or ".idx" behind it. */
module Names {
  import opened Bytes
  import opened Results

  predicate IsDigit(c: char) { '0' <= c <= '9' }

  function DigitChar(d: nat): (c: char)
    requires d < 10
    ensures IsDigit(c) && DigitValue(c) == d
  {
    ('0' as int + d) as char
  }

  function DigitValue(c: char): nat
    requires IsDigit(c)
  {
    c as int - '0' as int
  }

  /** The last `width` decimal digits of `n`, zero-padded. */
  function Digits(n: nat, width: nat): (s: string)
    ensures |s| == width && forall i :: 0 <= i < width ==> IsDigit(s[i])
  {
    if width == 0 then "" else Digits(n / 10, width - 1) + [DigitChar(n % 10)]
  }

  function Pow10(k: nat): (p: nat)
    ensures p > 0
  {
    if k == 0 then 1 else 10 * Pow10(k - 1)
  }

  /** The value of a non-empty run of digits, None if anything else occurs. */
  function DigitsValue(s: string): Option<nat> {
    if s == "" then Some(0)
    else if !IsDigit(s[|s| - 1]) then None
    else
      match DigitsValue(s[..|s| - 1])
      case None => None
      case Some(v) => Some(10 * v + DigitValue(s[|s| - 1]))
  }

  /** Rust's `str::parse::<u64>`: an optional plus sign, at least one digit, no overflow. */
  function ParseU64(s: string): (v: Option<U64>) {
    var digits := if |s| > 1 && s[0] == '+' then s[1..] else s;
    if digits == "" then None
    else
      match DigitsValue(digits)
      case None => None
      case Some(v) => if v < LIMIT64 then Some(v) else None
  }

  /** The position of the last dot. */
  function LastDot(name: string): (d: Option<nat>)
    ensures d.Some? ==> d.value < |name|
  {
    if name == "" then None
    else if name[|name| - 1] == '.' then Some(|name| - 1)
    else LastDot(name[..|name| - 1])
  }

  /**
   The base offset `load_segments` takes from a directory entry: the stem of
   a name with extension "log".  A name that starts with its only dot has no
   extension.
   */
  function ParseLogName(name: string): Option<U64> {
    match LastDot(name)
    case None => None
    case Some(d) =>
      if d > 0 && name[d + 1..] == "log" then ParseU64(name[..d]) else None
  }

  function LogName(base: nat): string { Digits(base, 20) + ".log" }

  function IdxName(base: nat): string { Digits(base, 20) + ".idx" }

  lemma {:induction false} DigitsRoundTrip(n: nat, width: nat)
    requires n < Pow10(width)
    ensures DigitsValue(Digits(n, width)) == Some(n)
  {
    if width > 0 {
      DigitsRoundTrip(n / 10, width - 1);
      assert Digits(n, width)[..width - 1] == Digits(n / 10, width - 1);
    }
  }

  lemma U64Fits20Digits()
    ensures LIMIT64 <= Pow10(20)
  {
    assert Pow10(4) == 10000;
    assert Pow10(8) == 10000 * Pow10(4);
    assert Pow10(12) == 10000 * Pow10(8);
    assert Pow10(16) == 10000 * Pow10(12);
    assert Pow10(20) == 10000 * Pow10(16);
  }

  lemma {:induction false} LastDotHere(name: string, d: nat)
    requires d < |name| && name[d] == '.'
    requires forall i :: d < i < |name| ==> name[i] != '.'
    ensures LastDot(name) == Some(d)
  {
    if d < |name| - 1 {
      LastDotHere(name[..|name| - 1], d);
    }
  }

  // ----- The names, character by character -----

  lemma MulAtLeast(k: nat, d: nat)
    requires k >= 1
    ensures k * d >= d
  {
    assert k * d == (k - 1) * d + d;
  }

  lemma MulOrder(a: nat, b: nat, d: nat)
    ensures a < b ==> a * d + d <= b * d
  {
    if a < b {
      MulAtLeast(b - a, d);
      assert (b - a) * d == b * d - a * d;
    }
  }

  lemma QuotientUnique(n: nat, d: nat, q: nat, r: nat)
    requires d > 0 && n == q * d + r && r < d
    ensures n / d == q
  {
    var p := n / d;
    assert n == p * d + n % d;
    MulOrder(p, q, d);
    MulOrder(q, p, d);
  }

  lemma DivideTwice(n: nat, p: nat)
    requires p > 0
    ensures n / 10 / p == n / (10 * p)
  {
    var q, r := n / 10 / p, n / 10 % p;
    assert n / 10 == q * p + r;
    assert q * (10 * p) == 10 * (q * p);
    QuotientUnique(n, 10 * p, q, 10 * r + n % 10);
  }

  /** Character `i` of a zero-padded number is its decimal digit of that weight. */
  lemma {:induction false} DigitAt(n: nat, width: nat, i: nat)
    requires i < width
    ensures Digits(n, width)[i] as int - '0' as int == n / Pow10(width - 1 - i) % 10
  {
    if i < width - 1 {
      DigitAt(n / 10, width - 1, i);
      DivideTwice(n, Pow10(width - 2 - i));
    }
  }

  /** A store name is twenty digits and ".log", an index name the same digits and ".idx". */
  lemma NameLayout(base: nat, i: nat)
    requires i < 20
    ensures |LogName(base)| == 24 && LogName(base)[20..] == ".log"
    ensures |IdxName(base)| == 24 && IdxName(base)[20..] == ".idx"
    ensures LogName(base)[i] as int - '0' as int == base / Pow10(19 - i) % 10
    ensures IdxName(base)[i] == LogName(base)[i]
  {
    DigitAt(base, 20, i);
  }

  /** The number a decimal numeral stands for. */
  function DecimalValue(s: string): int {
    if s == "" then 0 else 10 * DecimalValue(s[..|s| - 1]) + (s[|s| - 1] as int - '0' as int)
  }

  lemma {:induction false} DigitsValueIs(s: string)
    ensures DigitsValue(s).Some? <==> forall i :: 0 <= i < |s| ==> '0' <= s[i] <= '9'
    ensures DigitsValue(s).Some? ==> DigitsValue(s).value == DecimalValue(s)
  {
    if s != "" { DigitsValueIs(s[..|s| - 1]); }
  }

  /** Exactly the decimal numerals below 2^64 parse, with an optional plus sign in front. */
  lemma ParseU64Iff(s: string, v: U64)
    ensures ParseU64(s) == Some(v) <==>
              var digits := if |s| > 1 && s[0] == '+' then s[1..] else s;
              && digits != "" && (forall i :: 0 <= i < |digits| ==> '0' <= digits[i] <= '9')
              && DecimalValue(digits) == v
  {
    DigitsValueIs(if |s| > 1 && s[0] == '+' then s[1..] else s);
  }

  /** Exactly the names that end in ".log" after a numeral stand for a segment. */
  lemma ParseLogNameIff(name: string, base: U64)
    ensures ParseLogName(name) == Some(base) <==>
              |name| > 4 && name[|name| - 4..] == ".log" && ParseU64(name[..|name| - 4]) == Some(base)
  {
    if |name| > 4 && name[|name| - 4..] == ".log" {
      var end := name[|name| - 4..];
      assert name[|name| - 4] == end[0] && name[|name| - 3] == end[1];
      assert name[|name| - 2] == end[2] && name[|name| - 1] == end[3];
      LastDotHere(name, |name| - 4);
      assert name[|name| - 3..] == end[1..];
    }
    if LastDot(name).Some? {
      LastDotIsDot(name);
      var d := LastDot(name).value;
      if name[d + 1..] == "log" {
        assert |name| == d + 4;
        assert name[|name| - 4..] == [name[d]] + name[d + 1..];
      }
    }
  }

  lemma {:induction false} LastDotIsDot(name: string)
    ensures LastDot(name).Some? ==> name[LastDot(name).value] == '.'
  {
    if name != "" && name[|name| - 1] != '.' { LastDotIsDot(name[..|name| - 1]); }
  }

  /** The twenty-digit stem of every u64 parses back to it. */
  lemma StemRoundTrip(base: U64)
    ensures |Digits(base, 20)| == 20 && ParseU64(Digits(base, 20)) == Some(base)
  {
    U64Fits20Digits();
    DigitsRoundTrip(base, 20);
    assert Digits(base, 20)[0] != '+';
  }

  /** A store file's name gives its base offset back; an index file's name is not taken for a segment. */
  lemma NameRoundTrip(base: U64)
    ensures ParseLogName(LogName(base)) == Some(base)
    ensures ParseLogName(IdxName(base)) == None
  {
    StemRoundTrip(base);
    LastDotHere(LogName(base), 20);
    LastDotHere(IdxName(base), 20);
    assert LogName(base)[..20] == Digits(base, 20) && LogName(base)[21..] == "log";
    assert IdxName(base)[21..] == "idx";
    assert "idx"[0] != "log"[0];
  }

  /** A store file is never taken for an index file, whatever the bases. */
  lemma SuffixesDiffer(a: nat, b: nat)
    ensures LogName(a) != IdxName(b)
  {
    assert LogName(a)[21..] == ".log"[1..] && IdxName(b)[21..] == ".idx"[1..];
    assert ".log"[1] != ".idx"[1];
  }

  /** Different segments never share a file. */
  lemma NamesDistinct(a: U64, b: U64)
    ensures LogName(a) != IdxName(b)
    ensures LogName(a) == LogName(b) ==> a == b
    ensures IdxName(a) == IdxName(b) ==> a == b
  {
    NameRoundTrip(a);
    NameRoundTrip(b);
    StemRoundTrip(a);
    StemRoundTrip(b);
    assert IdxName(a)[..20] == Digits(a, 20) && IdxName(b)[..20] == Digits(b, 20);
  }
}
