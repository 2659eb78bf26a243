/** String facts: the byte order Go compares strings by, and decimal printing. */
module Text {
  predicate StringLess(a: string, b: string) {
    if b == [] then false
    else if a == [] then true
    else if a[0] != b[0] then a[0] < b[0]
    else StringLess(a[1..], b[1..])
  }

  lemma {:induction false} StringLessAsymmetric(a: string, b: string)
    ensures !(StringLess(a, b) && StringLess(b, a))
    ensures a == b || StringLess(a, b) || StringLess(b, a)
    decreases |a|
  {
    if a != [] && b != [] && a[0] == b[0] {
      StringLessAsymmetric(a[1..], b[1..]);
      assert a == [a[0]] + a[1..] && b == [b[0]] + b[1..];
    }
  }

  /** Byte order: the first difference decides, and a proper prefix comes first. */
  ghost predicate DiffersAt(a: string, b: string, k: nat) {
    k <= |a| && k < |b| && a[..k] == b[..k] && (k < |a| ==> a[k] < b[k])
  }

  lemma SameStart(a: string, b: string, k: nat)
    requires DiffersAt(a, b, k) && k > 0
    ensures a != [] && a[0] == b[0]
  {
    assert a[..k][0] == b[..k][0];
  }

  lemma {:induction false} StringLessExactly(a: string, b: string)
    ensures StringLess(a, b) <==> exists k: nat :: DiffersAt(a, b, k)
    decreases |a|
  {
    forall k: nat | DiffersAt(a, b, k) && k > 0 ensures a != [] && a[0] == b[0] {
      SameStart(a, b, k);
    }
    if a == [] || b == [] || a[0] != b[0] {
      if StringLess(a, b) {
        assert DiffersAt(a, b, 0);
      }
    } else {
      StringLessExactly(a[1..], b[1..]);
      if k: nat :| DiffersAt(a[1..], b[1..], k) {
        assert a[..k + 1] == [a[0]] + a[1..][..k] && b[..k + 1] == [b[0]] + b[1..][..k];
        assert DiffersAt(a, b, k + 1);
      }
      if k: nat :| DiffersAt(a, b, k) {
        assert k > 0;
        assert a[1..][..k - 1] == a[..k][1..] && b[1..][..k - 1] == b[..k][1..];
        assert DiffersAt(a[1..], b[1..], k - 1);
      }
    }
  }

  lemma {:induction false} StringLessSplits(a: string, b: string, c: string)
    requires StringLess(a, c)
    ensures StringLess(a, b) || StringLess(b, c)
    decreases |a|
  {
    if a != [] && b != [] && c != [] && a[0] == b[0] == c[0] {
      StringLessSplits(a[1..], b[1..], c[1..]);
    }
  }

  function Digit(d: nat): char
    requires d < 10
  {
    '0' + d as char
  }

  /** Printing with %d. */
  function Decimal(n: int): string
    decreases n < 0, if n < 0 then -n else n
  {
    if n < 0 then "-" + Decimal(-n)
    else if n < 10 then [Digit(n)]
    else Decimal(n / 10) + [Digit(n % 10)]
  }

  function DigitValue(c: char): int {
    c as int - '0' as int
  }

  /** Reads a decimal numeral back. */
  function ParseDigits(s: string): int {
    if s == [] then 0 else 10 * ParseDigits(s[..|s| - 1]) + DigitValue(s[|s| - 1])
  }

  function Parse(s: string): int {
    if s != [] && s[0] == '-' then -ParseDigits(s[1..]) else ParseDigits(s)
  }

  lemma {:induction false} DecimalDigits(n: nat)
    ensures Decimal(n) != [] && AllDigits(Decimal(n))
    ensures ParseDigits(Decimal(n)) == n
  {
    if n >= 10 {
      DecimalDigits(n / 10);
      var d := Decimal(n / 10);
      assert (d + [Digit(n % 10)])[..|d|] == d;
    } else {
      assert Decimal(n)[..0] == [];
    }
  }

  /** Printing an integer loses nothing, and never prints the key separator. */
  lemma DecimalRoundTrip(n: int)
    ensures Parse(Decimal(n)) == n
    ensures '|' !in Decimal(n)
  {
    if n < 0 {
      DecimalDigits(-n);
      SignedDigits(Decimal(-n));
    } else {
      DecimalDigits(n);
      UnsignedDigits(Decimal(n));
    }
  }

  predicate AllDigits(s: string) {
    forall i :: 0 <= i < |s| ==> '0' <= s[i] <= '9'
  }

  lemma UnsignedDigits(s: string)
    requires s != [] && AllDigits(s)
    ensures Parse(s) == ParseDigits(s) && '|' !in s
  {
    assert s[0] != '-';
  }

  lemma SignedDigits(s: string)
    requires AllDigits(s)
    ensures Parse("-" + s) == -ParseDigits(s) && '|' !in "-" + s
  {
    assert ("-" + s)[1..] == s;
  }
}
