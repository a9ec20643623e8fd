/** How the `emulators` read interprets the requested height: compared with
    `max_height` as std::strings, then converted with atoi. */
module HeightText {

  // ---------------------------------------------------------------------------
  // `height > topology.get<string>("max_height")` compares std::strings.

  /** `a < b` on std::string: ordered by the first differing character, a
      proper prefix before the longer string. */
  function LexLess(a: string, b: string): bool
    decreases |a|
  {
    if b == [] then false
    else if a == [] then true
    else if a[0] != b[0] then a[0] < b[0]
    else LexLess(a[1..], b[1..])
  }

  /** `a` and `b` agree on their first `k` characters and `a` is smaller at
      position `k` (or ends there while `b` goes on). */
  predicate LessAt(a: string, b: string, k: nat) {
    k <= |a| && k < |b| && a[..k] == b[..k] && (k == |a| || a[k] < b[k])
  }

  /** LexLess is the order by first difference. */
  lemma {:induction false} LexLessFirstDifference(a: string, b: string)
    ensures LexLess(a, b) <==> exists k: nat :: LessAt(a, b, k)
    decreases |a|
  {
    if b == [] {
    } else if a == [] {
      assert LessAt(a, b, 0);
    } else if a[0] != b[0] {
      if LexLess(a, b) {
        assert LessAt(a, b, 0);
      } else {
        forall k: nat | LessAt(a, b, k)
          ensures false
        {
        }
      }
    } else {
      LexLessFirstDifference(a[1..], b[1..]);
      if LexLess(a, b) {
        var k: nat :| LessAt(a[1..], b[1..], k);
        assert a[..k + 1] == [a[0]] + a[1..][..k];
        assert b[..k + 1] == [b[0]] + b[1..][..k];
        assert LessAt(a, b, k + 1);
      } else {
        forall k: nat | LessAt(a, b, k)
          ensures false
        {
          if k > 0 {
            assert a[1..][..k - 1] == a[..k][1..];
            assert b[1..][..k - 1] == b[..k][1..];
            assert LessAt(a[1..], b[1..], k - 1);
          }
        }
      }
    }
  }

  /** One-character heights compare as their characters. */
  lemma LexLessSingle(a: char, b: char)
    ensures LexLess([a], [b]) <==> a < b
  {
    assert [a][1..] == [] && [b][1..] == [];
  }

  /** Compared as text, "10" is not above "9", so a height of 10 passes a
      maximum of 9. */
  lemma TenPassesNine()
    ensures !LexLess("9", "10")
  {
  }

  /** And "2" is above "10", so a height of 2 fails a maximum of 10. */
  lemma TwoFailsTen()
    ensures LexLess("10", "2")
  {
  }

  // ---------------------------------------------------------------------------
  // `atoi(height.c_str())`.

  predicate IsDigit(c: char) {
    '0' <= c <= '9'
  }

  /** The characters isspace accepts in the C locale. */
  predicate IsSpace(c: char) {
    c == ' ' || '\t' <= c <= '\r'
  }

  /** The text after the leading white space. */
  function SkipSpace(s: string): (r: string)
    ensures |r| <= |s| && r == s[|s| - |r|..]
    ensures r == [] || !IsSpace(r[0])
    ensures forall i :: 0 <= i < |s| - |r| ==> IsSpace(s[i])
  {
    if s != [] && IsSpace(s[0]) then SkipSpace(s[1..]) else s
  }

  /** Folds the leading digits of `s` into `acc`, most significant first. */
  function Accumulate(acc: int, s: string): int
    decreases |s|
  {
    if s != [] && IsDigit(s[0]) then Accumulate(acc * 10 + (s[0] as int - '0' as int), s[1..]) else acc
  }

  /** White space, an optional sign, then digits up to the first non-digit;
      no digits at all give 0. */
  function Atoi(s: string): int {
    var r := SkipSpace(s);
    if r != [] && r[0] == '-' then -Accumulate(0, r[1..])
    else if r != [] && r[0] == '+' then Accumulate(0, r[1..])
    else Accumulate(0, r)
  }

  /** The decimal text of a number, as a client writes a height. */
  function Decimal(n: nat): (d: string)
    ensures d != [] && forall i :: 0 <= i < |d| ==> IsDigit(d[i])
  {
    if n < 10 then ['0' + n as char] else Decimal(n / 10) + ['0' + (n % 10) as char]
  }

  function Pow10(k: nat): nat {
    if k == 0 then 1 else 10 * Pow10(k - 1)
  }

  lemma {:induction false} AccumulateDigits(acc: int, ds: string, rest: string)
    requires forall i :: 0 <= i < |ds| ==> IsDigit(ds[i])
    ensures Accumulate(acc, ds + rest) == Accumulate(Accumulate(acc, ds), rest)
    decreases |ds|
  {
    if ds != [] {
      var acc' := acc * 10 + (ds[0] as int - '0' as int);
      assert (ds + rest)[0] == ds[0];
      assert (ds + rest)[1..] == ds[1..] + rest;
      assert Accumulate(acc, ds + rest) == Accumulate(acc', ds[1..] + rest);
      assert Accumulate(acc, ds) == Accumulate(acc', ds[1..]);
      AccumulateDigits(acc', ds[1..], rest);
    } else {
      assert ds + rest == rest;
    }
  }

  /** One more digit `k` after the value `x`. */
  lemma AccumulateOne(x: int, k: nat)
    requires k < 10
    ensures Accumulate(x, ['0' + k as char]) == x * 10 + k
  {
    assert ['0' + k as char][1..] == [];
  }

  lemma ShiftDigit(acc: int, p: int, n: nat)
    ensures (acc * p + n / 10) * 10 + n % 10 == acc * (10 * p) + n
  {
  }

  lemma {:induction false} AccumulateDecimal(acc: int, n: nat)
    ensures Accumulate(acc, Decimal(n)) == acc * Pow10(|Decimal(n)|) + n
    decreases n
  {
    if n >= 10 {
      var d := ['0' + (n % 10) as char];
      assert Decimal(n) == Decimal(n / 10) + d;
      AccumulateDigits(acc, Decimal(n / 10), d);
      AccumulateDecimal(acc, n / 10);
      var p := Pow10(|Decimal(n / 10)|);
      AccumulateOne(acc * p + n / 10, n % 10);
      assert Pow10(|Decimal(n)|) == 10 * p;
      ShiftDigit(acc, p, n);
    } else {
      AccumulateOne(acc, n);
      assert Pow10(|Decimal(n)|) == 10;
    }
  }

  /** atoi reads back the decimal text of any height. */
  lemma AtoiDecimal(n: nat)
    ensures Atoi(Decimal(n)) == n
  {
    var d := Decimal(n);
    SkipNoSpace(d);
    assert d[0] != '-' && d[0] != '+';
    AccumulateDecimal(0, n);
  }

  lemma SkipNoSpace(s: string)
    requires s != [] && !IsSpace(s[0])
    ensures SkipSpace(s) == s
  {
  }

  /** The height "0" reads as 0. */
  lemma HeightZero()
    ensures Atoi("0") == 0
  {
    SkipNoSpace("0");
    assert "0"[1..] == [];
    assert Accumulate(0, "0") == Accumulate(0, []);
  }

  /** The height "1" reads as 1. */
  lemma HeightOne()
    ensures Atoi("1") == 1
  {
    SkipNoSpace("1");
    assert "1"[1..] == [];
    assert Accumulate(0, "1") == Accumulate(1, []);
  }

}
