/** The textual encodings used on the wire: decimal integers, lowercase hex, `|` separators. */
module Text {
  import opened Common
  import Arith

  // ---------- decimal ----------

  function DigitChar(d: nat): char
    requires d < 10
  {
    ('0' as int + d) as char
  }

  predicate IsDigit(c: char) {
    '0' <= c <= '9'
  }

  predicate AllDigits(s: string) {
    forall i :: 0 <= i < |s| ==> IsDigit(s[i])
  }

  /** `u64::to_string`. */
  function Print(n: nat): string {
    if n < 10 then [DigitChar(n)] else Print(n / 10) + [DigitChar(n % 10)]
  }

  function Value(s: string): nat
    requires AllDigits(s)
  {
    if s == [] then 0 else 10 * Value(s[..|s| - 1]) + (s[|s| - 1] as int - '0' as int)
  }

  /** `str::parse::<u64>`: an optional plus sign, at least one digit, no overflow. */
  function ParseU64(s: string): Option<nat> {
    var t := if s != [] && s[0] == '+' then s[1..] else s;
    if t == [] || !AllDigits(t) || Value(t) > U64_MAX then None else Some(Value(t))
  }

  lemma {:induction false} PrintDigits(n: nat)
    ensures Print(n) != [] && AllDigits(Print(n)) && Value(Print(n)) == n
  {
    if n >= 10 {
      PrintDigits(n / 10);
      assert Print(n)[..|Print(n)| - 1] == Print(n / 10);
    } else {
      assert Print(n)[..0] == [];
    }
  }

  /** Printing is inverted by parsing over the whole `u64` range. */
  lemma ParsePrint(n: nat)
    requires n <= U64_MAX
    ensures ParseU64(Print(n)) == Some(n)
  {
    PrintDigits(n);
    assert IsDigit(Print(n)[0]);
  }

  lemma PrintInjective(m: nat, n: nat)
    requires Print(m) == Print(n)
    ensures m == n
  {
    PrintDigits(m);
    PrintDigits(n);
  }

  function Zeros(k: nat): string {
    if k == 0 then [] else Zeros(k - 1) + ['0']
  }

  lemma {:induction false} ZerosAre(k: nat)
    ensures |Zeros(k)| == k && AllDigits(Zeros(k)) && forall i :: 0 <= i < k ==> Zeros(k)[i] == '0'
  {
    if k == 0 {
    } else {
      ZerosAre(k - 1);
    }
  }

  /** Leading zeros do not count. */
  lemma {:induction false} ValuePadded(k: nat, s: string)
    requires AllDigits(s)
    ensures AllDigits(Zeros(k) + s) && Value(Zeros(k) + s) == Value(s)
  {
    ZerosAre(k);
    var padded := Zeros(k) + s;
    if s == [] {
      assert padded == Zeros(k);
      if k > 0 {
        ValuePadded(k - 1, []);
        assert Zeros(k - 1) + [] == Zeros(k - 1);
        assert padded[..|padded| - 1] == Zeros(k - 1);
      }
    } else {
      ValuePadded(k, s[..|s| - 1]);
      assert padded[..|padded| - 1] == Zeros(k) + s[..|s| - 1];
    }
  }

  /** Digits are the decimal form of their value behind some zeros. */
  lemma {:induction false} DigitsArePadded(s: string) returns (k: nat)
    requires s != [] && AllDigits(s)
    ensures s == Zeros(k) + Print(Value(s))
  {
    var n := |s| - 1;
    assert IsDigit(s[n]);
    assert s == s[..n] + [s[n]];
    if n == 0 {
      k := 0;
      assert s[..0] == [];
      assert DigitChar(Value(s)) == s[0];
    } else {
      k := DigitsArePadded(s[..n]);
      assert DigitChar(Value(s) % 10) == s[n];
      if Value(s[..n]) == 0 {
        assert Zeros(k) + Print(0) == Zeros(k + 1);
        k := k + 1;
      }
    }
  }

  /** What parses to `n`: its decimal form, behind any number of zeros and at most one plus sign. */
  function Written(plus: bool, zeros: nat, n: nat): string {
    (if plus then ['+'] else []) + Zeros(zeros) + Print(n)
  }

  lemma ParseExactly(s: string, n: nat)
    ensures ParseU64(s) == Some(n) <==> n <= U64_MAX && exists plus, zeros :: s == Written(plus, zeros, n)
  {
    if ParseU64(s) == Some(n) {
      var plus := s[0] == '+';
      var digits := if plus then s[1..] else s;
      var k := DigitsArePadded(digits);
      assert s == Written(plus, k, n);
    }
    if n <= U64_MAX && exists plus, zeros :: s == Written(plus, zeros, n) {
      var plus, zeros :| s == Written(plus, zeros, n);
      ParseWritten(plus, zeros, n);
    }
  }

  lemma ParseWritten(plus: bool, zeros: nat, n: nat)
    requires n <= U64_MAX
    ensures ParseU64(Written(plus, zeros, n)) == Some(n)
  {
    PrintDigits(n);
    ValuePadded(zeros, Print(n));
    var digits := Zeros(zeros) + Print(n);
    assert IsDigit(digits[0]);
    if plus {
      assert Written(plus, zeros, n)[1..] == digits;
    } else {
      assert Written(plus, zeros, n) == digits;
    }
  }

  /** Each printed digit is the digit of its power of ten, the most significant first and not zero. */
  lemma {:induction false} PrintPositional(n: nat, k: nat)
    requires k < |Print(n)|
    ensures Pow10(k) > 0
    ensures Print(n)[|Print(n)| - 1 - k] as int - '0' as int == n / Pow10(k) % 10
    ensures n > 0 ==> Print(n)[0] != '0'
  {
    if k == 0 {
      if n >= 10 {
        PrintPositional(n / 10, 0);
      }
    } else {
      PrintPositional(n / 10, k - 1);
      DivideTwice(n, Pow10(k - 1));
    }
  }

  lemma DivideTwice(n: nat, p: nat)
    requires p > 0
    ensures n / 10 / p == n / (10 * p)
  {
    var m := n / 10;
    var q, r := m / p, m % p;
    assert m == p * q + r;
    assert n == 10 * (p * q + r) + n % 10;
    assert 10 * (p * q) == (10 * p) * q;
    Arith.DivModUnique(10 * p, q, 10 * r + n % 10);
  }

  function Pow10(k: nat): nat {
    if k == 0 then 1 else 10 * Pow10(k - 1)
  }

  lemma {:induction false} PowerSplit(a: nat, b: nat)
    ensures Pow10(a + b) == Pow10(a) * Pow10(b)
  {
    if a == 0 {
    } else {
      PowerSplit(a - 1, b);
    }
  }

  lemma {:induction false} PrintLength(n: nat, k: nat)
    requires n < Pow10(k)
    ensures |Print(n)| <= k || n == 0
  {
    if n < 10 {
    } else {
      PrintLength(n / 10, k - 1);
    }
  }

  /** No `u64` prints to more than twenty digits. */
  lemma PrintShort(n: nat)
    requires n <= U64_MAX
    ensures |Print(n)| <= 20
  {
    PowerSplit(10, 10);
    PowerSplit(5, 5);
    assert Pow10(5) == 100000;
    PrintLength(n, 20);
  }

  // ---------- hex ----------

  function HexChar(d: nat): char
    requires d < 16
  {
    if d < 10 then DigitChar(d) else ('a' as int + (d - 10)) as char
  }

  function Hex(bytes: Bytes): string {
    if bytes == [] then [] else [HexChar(bytes[0] / 16), HexChar(bytes[0] % 16)] + Hex(bytes[1..])
  }

  /** Two lowercase digits a byte, the high half first. */
  lemma {:induction false} HexIs(bytes: Bytes, i: nat)
    requires i < |bytes|
    ensures |Hex(bytes)| == 2 * |bytes|
    ensures Hex(bytes)[2 * i] == "0123456789abcdef"[bytes[i] / 16]
    ensures Hex(bytes)[2 * i + 1] == "0123456789abcdef"[bytes[i] % 16]
  {
    HexLength(bytes);
    if i == 0 {
    } else {
      HexIs(bytes[1..], i - 1);
      assert Hex(bytes)[2..] == Hex(bytes[1..]);
    }
  }

  lemma HexCharInjective(a: nat, b: nat)
    requires a < 16 && b < 16 && HexChar(a) == HexChar(b)
    ensures a == b
  {
  }

  lemma {:induction false} HexInjective(a: Bytes, b: Bytes)
    requires Hex(a) == Hex(b)
    ensures a == b
  {
    if a == [] || b == [] {
    } else {
      var s := Hex(a);
      assert s[0] == HexChar(a[0] / 16) == HexChar(b[0] / 16);
      assert s[1] == HexChar(a[0] % 16) == HexChar(b[0] % 16);
      HexCharInjective(a[0] / 16, b[0] / 16);
      HexCharInjective(a[0] % 16, b[0] % 16);
      assert s[2..] == Hex(a[1..]) && s[2..] == Hex(b[1..]);
      HexInjective(a[1..], b[1..]);
    }
  }

  lemma {:induction false} HexLength(bytes: Bytes)
    ensures |Hex(bytes)| == 2 * |bytes|
  {
    if bytes == [] {
    } else {
      HexLength(bytes[1..]);
    }
  }

  // ---------- separators ----------

  /** The number of `|` characters. */
  function Bars(s: string): nat {
    if s == [] then 0 else (if s[0] == '|' then 1 else 0) + Bars(s[1..])
  }

  lemma {:induction false} BarsSplit(a: string, b: string)
    ensures Bars(a + b) == Bars(a) + Bars(b)
  {
    if a == [] {
      assert a + b == b;
    } else {
      assert (a + b)[1..] == a[1..] + b;
      BarsSplit(a[1..], b);
    }
  }

  lemma {:induction false} NoBars(s: string)
    requires forall i :: 0 <= i < |s| ==> s[i] != '|'
    ensures Bars(s) == 0
  {
    if s == [] {
    } else {
      NoBars(s[1..]);
    }
  }

  lemma {:induction false} HexNoBars(bytes: Bytes)
    ensures Bars(Hex(bytes)) == 0
  {
    if bytes == [] {
    } else {
      HexNoBars(bytes[1..]);
      BarsSplit([HexChar(bytes[0] / 16), HexChar(bytes[0] % 16)], Hex(bytes[1..]));
      NoBars([HexChar(bytes[0] / 16), HexChar(bytes[0] % 16)]);
    }
  }

  lemma PrintNoBars(n: nat)
    ensures Bars(Print(n)) == 0
  {
    PrintDigits(n);
    NoBars(Print(n));
  }

  function Join(a: string, b: string): string {
    a + ['|'] + b
  }

  /** A joined pair splits in one way only, once the bars on its left are counted. */
  lemma {:induction false} SplitLeft(a: string, b: string, c: string, d: string)
    requires Join(a, b) == Join(c, d) && Bars(a) == Bars(c)
    ensures a == c && b == d
  {
    var s := Join(a, b);
    assert s[0] == (if a == [] then '|' else a[0]) && s[0] == (if c == [] then '|' else c[0]);
    if a == [] && c == [] {
      assert s[1..] == b && s[1..] == d;
    } else if a != [] && c != [] {
      assert s[1..] == Join(a[1..], b) && s[1..] == Join(c[1..], d);
      SplitLeft(a[1..], b, c[1..], d);
    }
  }

  /** The same from the right. */
  lemma SplitRight(a: string, b: string, c: string, d: string)
    requires Join(a, b) == Join(c, d) && Bars(b) == Bars(d)
    ensures a == c && b == d
  {
    BarsSplit(a + ['|'], b);
    BarsSplit(c + ['|'], d);
    BarsSplit(a, ['|']);
    BarsSplit(c, ['|']);
    SplitLeft(a, b, c, d);
  }

  lemma JoinAssociates(a: string, b: string, c: string)
    ensures Join(a, Join(b, c)) == Join(Join(a, b), c)
  {
  }

  /** A string with more than `k` bars has a suffix, after a bar, with exactly `k`. */
  lemma {:induction false} SplitAt(s: string, k: nat) returns (x: string, y: string)
    requires Bars(s) > k
    ensures s == Join(x, y) && Bars(y) == k
  {
    if s[0] == '|' && Bars(s[1..]) == k {
      x, y := [], s[1..];
      assert s == [] + ['|'] + s[1..];
    } else {
      x, y := SplitAt(s[1..], k);
      assert s == [s[0]] + s[1..];
      assert Join([s[0]] + x, y) == [s[0]] + Join(x, y);
      x := [s[0]] + x;
    }
  }
}
