/** Text conventions of the Go runtime that the report relies on: the order
    of Go's comparison operators on strings, `%v` formatting of integers, and
    the `%s:%v` connection text built from an address and a port. */
module GoText {

  datatype Option<T> = None | Some(value: T)

  // ---------------------------------------------------------------------
  // String order. Go compares strings byte-wise on their UTF-8 encoding,
  // which orders Unicode scalar values exactly as their code points; on
  // `seq<char>` that is the lexicographic order below.
  // ---------------------------------------------------------------------

  /** Go's `a < b` on strings. */
  predicate Less(a: string, b: string)
  {
    if |b| == 0 then false
    else if |a| == 0 then true
    else if a[0] != b[0] then a[0] < b[0]
    else Less(a[1..], b[1..])
  }

  /** Go's `a >= b` on strings, the negation of the comparator
      `ret[i].Name > ret[j].Name` with its arguments swapped. */
  predicate AtLeast(a: string, b: string)
  {
    !Less(a, b)
  }

  lemma {:induction false} LessIrreflexive(a: string)
    ensures !Less(a, a)
  {
    if |a| > 0 {
      LessIrreflexive(a[1..]);
    }
  }

  lemma {:induction false} LessTransitive(a: string, b: string, c: string)
    requires Less(a, b) && Less(b, c)
    ensures Less(a, c)
  {
    if |a| > 0 && a[0] == b[0] && b[0] == c[0] {
      LessTransitive(a[1..], b[1..], c[1..]);
    }
  }

  lemma {:induction false} LessTotal(a: string, b: string)
    ensures a == b || Less(a, b) || Less(b, a)
  {
    if |a| > 0 && |b| > 0 && a[0] == b[0] {
      LessTotal(a[1..], b[1..]);
      if a[1..] == b[1..] {
        assert a == [a[0]] + a[1..] && b == [b[0]] + b[1..];
      }
    }
  }

  lemma LessAsymmetric(a: string, b: string)
    requires Less(a, b)
    ensures !Less(b, a)
  {
    if Less(b, a) {
      LessTransitive(a, b, a);
      LessIrreflexive(a);
    }
  }

  /** `AtLeast` is a total preorder that is in fact antisymmetric: two
      strings neither of which is below the other are equal. */
  lemma AtLeastAntisymmetric(a: string, b: string)
    requires AtLeast(a, b) && AtLeast(b, a)
    ensures a == b
  {
    LessTotal(a, b);
  }

  lemma AtLeastTransitive(a: string, b: string, c: string)
    requires AtLeast(a, b) && AtLeast(b, c)
    ensures AtLeast(a, c)
  {
    LessTotal(a, b);
    LessTotal(b, c);
    if Less(a, c) {
      if a == b {
      } else if b == c {
      } else {
        LessTransitive(b, a, c);
      }
    }
  }

  // ---------------------------------------------------------------------
  // `%v` on an integer: optional minus sign, then decimal digits with no
  // leading zero.
  // ---------------------------------------------------------------------

  predicate IsDigit(c: char)
  {
    '0' <= c <= '9'
  }

  predicate AllDigits(s: string)
  {
    forall k :: 0 <= k < |s| ==> IsDigit(s[k])
  }

  function DigitChar(d: nat): (c: char)
    requires d < 10
    ensures IsDigit(c) && c as int - '0' as int == d
  {
    ('0' as int + d) as char
  }

  /** Decimal digits of a natural number, most significant first. */
  function NatDecimal(n: nat): string
  {
    if n < 10 then [DigitChar(n)] else NatDecimal(n / 10) + [DigitChar(n % 10)]
  }

  /** The text `%v` produces for an integer value. */
  function Decimal(n: int): string
  {
    if n < 0 then "-" + NatDecimal(-n) else NatDecimal(n)
  }

  /** Reads back decimal digits; the partner of NatDecimal. */
  function ParseNat(s: string): nat
    requires AllDigits(s)
  {
    if |s| == 0 then 0 else ParseNat(s[..|s| - 1]) * 10 + (s[|s| - 1] as int - '0' as int)
  }

  predicate IsDecimal(s: string)
  {
    if |s| > 0 && s[0] == '-' then |s| > 1 && AllDigits(s[1..]) else |s| > 0 && AllDigits(s)
  }

  /** Reads back the text of an integer; the partner of Decimal. */
  function ParseInt(s: string): int
    requires IsDecimal(s)
  {
    if s[0] == '-' then 0 - ParseNat(s[1..]) as int else ParseNat(s)
  }

  /** The digits of a natural number are non-empty, all decimal digits, and
      carry no leading zero. */
  lemma {:induction false} NatDecimalWellFormed(n: nat)
    ensures |NatDecimal(n)| > 0 && AllDigits(NatDecimal(n))
    ensures NatDecimal(n)[0] == '0' ==> n == 0
  {
    if n >= 10 {
      NatDecimalWellFormed(n / 10);
    }
  }

  /** The `%v` text of an integer is a well-formed decimal and holds no ':'. */
  lemma DecimalWellFormed(n: int)
    ensures IsDecimal(Decimal(n)) && ':' !in Decimal(n)
  {
    if n < 0 {
      NatDecimalWellFormed(-n);
      assert Decimal(n)[1..] == NatDecimal(-n);
      assert Decimal(n) == ['-'] + NatDecimal(-n);
    } else {
      NatDecimalWellFormed(n);
    }
  }

  lemma {:induction false} ParseNatDecimal(n: nat)
    ensures AllDigits(NatDecimal(n)) && ParseNat(NatDecimal(n)) == n
  {
    NatDecimalWellFormed(n);
    if n >= 10 {
      var s := NatDecimal(n);
      assert s[..|s| - 1] == NatDecimal(n / 10);
      ParseNatDecimal(n / 10);
    }
  }

  /** Every integer's `%v` text is a well-formed decimal that reads back as
      the same integer, so distinct ports never print alike. */
  lemma DecimalRoundTrip(n: int)
    ensures IsDecimal(Decimal(n)) && ParseInt(Decimal(n)) == n
  {
    DecimalWellFormed(n);
    if n < 0 {
      assert Decimal(n)[1..] == NatDecimal(-n);
      ParseNatDecimal(-n);
    } else {
      ParseNatDecimal(n);
    }
  }

  // ---------------------------------------------------------------------
  // The connection text `addr:port`.
  // ---------------------------------------------------------------------

  /** The text that the verbs `%s:%v` print for an address and a port. */
  function Connection(addr: string, port: int): string
  {
    addr + ":" + Decimal(port)
  }

  /** Index of the last ':' in s, if there is one. */
  function LastColon(s: string): (r: Option<nat>)
    ensures r.None? ==> ':' !in s
    ensures r.Some? ==> r.value < |s| && s[r.value] == ':' && ':' !in s[r.value + 1..]
  {
    if |s| == 0 then None
    else if s[|s| - 1] == ':' then Some(|s| - 1)
    else
      var r := LastColon(s[..|s| - 1]);
      assert s == s[..|s| - 1] + [s[|s| - 1]];
      r
  }

  /** Splits a connection text back into its address and its port, at the
      last ':' so that an IPv6 address, which holds colons itself, is kept
      whole. */
  function SplitConnection(c: string): Option<(string, int)>
  {
    match LastColon(c)
    case None => None
    case Some(k) => if IsDecimal(c[k + 1..]) then Some((c[..k], ParseInt(c[k + 1..]))) else None
  }

  lemma {:induction false} LastColonOfSuffix(p: string, d: string)
    requires ':' !in d
    ensures LastColon(p + [':'] + d) == Some(|p|)
  {
    var s := p + [':'] + d;
    if |d| > 0 {
      assert s[..|s| - 1] == p + [':'] + d[..|d| - 1];
      LastColonOfSuffix(p, d[..|d| - 1]);
    }
  }

  /** Every connection text splits back into the address and port it was
      built from, whatever the address holds. */
  lemma SplitConnectionInverts(addr: string, port: int)
    ensures SplitConnection(Connection(addr, port)) == Some((addr, port))
  {
    var d := Decimal(port);
    DecimalWellFormed(port);
    var c := addr + [':'] + d;
    assert Connection(addr, port) == c;
    LastColonOfSuffix(addr, d);
    assert c[..|addr|] == addr;
    assert c[|addr| + 1..] == d;
    DecimalRoundTrip(port);
  }
}
