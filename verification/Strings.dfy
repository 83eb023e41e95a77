/** Joining and splitting text at a separator. */
module Strings {
  function Digit(n: nat): char
    requires n < 10
  {
    '0' + n as char
  }

  function Join(parts: seq<string>, sep: char): string
    requires parts != []
  {
    if |parts| == 1 then parts[0] else parts[0] + [sep] + Join(parts[1..], sep)
  }

  /** Position of the first `sep`, or the length. */
  function Find(s: string, sep: char): (n: nat)
    ensures n <= |s|
  {
    if s == [] || s[0] == sep then 0 else 1 + Find(s[1..], sep)
  }

  lemma {:induction false} FindExactly(s: string, sep: char)
    ensures var n := Find(s, sep);
            sep !in s[..n] && (n < |s| ==> s[n] == sep)
  {
    if s != [] && s[0] != sep {
      FindExactly(s[1..], sep);
      var n := Find(s, sep);
      assert s[..n] == [s[0]] + s[1..][..n - 1];
    }
  }

  /** The parts between separators: always at least one. */
  function Split(s: string, sep: char): (parts: seq<string>)
    ensures parts != []
    decreases |s|
  {
    var n := Find(s, sep);
    if n == |s| then [s] else [s[..n]] + Split(s[n + 1..], sep)
  }

  lemma {:induction false} FindAfter(a: string, sep: char, b: string)
    requires sep !in a
    ensures Find(a + [sep] + b, sep) == |a|
    ensures Find(a, sep) == |a|
  {
    if a != [] {
      assert (a + [sep] + b)[1..] == a[1..] + [sep] + b;
      FindAfter(a[1..], sep, b);
    }
  }

  lemma {:induction false} SplitOfJoin(parts: seq<string>, sep: char)
    requires parts != [] && forall p :: p in parts ==> sep !in p
    ensures Split(Join(parts, sep), sep) == parts
    decreases |parts|
  {
    FindAfter(parts[0], sep, []);
    if |parts| > 1 {
      var rest := Join(parts[1..], sep);
      FindAfter(parts[0], sep, rest);
      SplitOfJoin(parts[1..], sep);
      var s := parts[0] + [sep] + rest;
      assert s[..|parts[0]|] == parts[0] && s[|parts[0]| + 1..] == rest;
    }
  }

  lemma {:induction false} JoinOfSplit(s: string, sep: char)
    ensures Join(Split(s, sep), sep) == s
    ensures forall p :: p in Split(s, sep) ==> sep !in p
    decreases |s|
  {
    var n := Find(s, sep);
    FindExactly(s, sep);
    if n < |s| {
      JoinOfSplit(s[n + 1..], sep);
      var rest := Split(s[n + 1..], sep);
      assert Split(s, sep)[1..] == rest;
      assert s == s[..n] + [s[n]] + s[n + 1..];
    }
  }
}

/** IPv4 addresses in text: four numbers from 0 to 255 without leading zeros, as `inet_pton` takes them. */
module Ipv4Text {
  import opened Options
  import opened Strings

  type Octet = n: nat | n < 256

  /** An address as its four numbers. */
  datatype Address = Address(a: Octet, b: Octet, c: Octet, d: Octet)

  function OctetText(n: Octet): (s: string)
    ensures 1 <= |s| <= 3
    ensures |s| == 1 <==> n < 10
    ensures forall c :: c in s ==> '0' <= c <= '9'
  {
    if n < 10 then [Digit(n)]
    else if n < 100 then [Digit(n / 10), Digit(n % 10)]
    else [Digit(n / 100), Digit(n / 10 % 10), Digit(n % 10)]
  }

  predicate IsDigit(c: char) {
    '0' <= c <= '9'
  }

  function Value(c: char): nat
    requires IsDigit(c)
  {
    (c as int) - ('0' as int)
  }

  function ParseOctet(s: string): Option<Octet> {
    if !(1 <= |s| <= 3) || (exists i :: 0 <= i < |s| && !IsDigit(s[i])) then None
    else if |s| > 1 && s[0] == '0' then None
    else
      var n := if |s| == 1 then Value(s[0])
               else if |s| == 2 then 10 * Value(s[0]) + Value(s[1])
               else 100 * Value(s[0]) + 10 * Value(s[1]) + Value(s[2]);
      if n < 256 then Some(n) else None
  }

  lemma DigitsOf(n: nat, x: nat, y: nat, z: nat)
    requires x < 10 && y < 10 && z < 10
    ensures n == 10 * y + z <==> n / 10 == y && n % 10 == z
    ensures n == 100 * x + 10 * y + z <==> n / 100 == x && n / 10 % 10 == y && n % 10 == z
  {
  }

  lemma DigitExactly(c: char, d: nat)
    requires IsDigit(c) && d < 10
    ensures c == Digit(d) <==> Value(c) == d
  {
  }

  /** A number is parsed from its text, and from no other. */
  lemma OctetTextExactly(s: string, n: Octet)
    ensures ParseOctet(s) == Some(n) <==> s == OctetText(n)
  {
    var t := OctetText(n);
    if 1 <= |s| <= 3 && forall i :: 0 <= i < |s| ==> IsDigit(s[i]) {
      if |s| == 1 {
        DigitExactly(s[0], n % 10);
      } else if |s| == 2 {
        TwoDigitsExactly(s, n);
      } else {
        ThreeDigitsExactly(s, n);
      }
    }
  }

  lemma TwoDigitsExactly(s: string, n: Octet)
    requires |s| == 2 && IsDigit(s[0]) && IsDigit(s[1])
    ensures ParseOctet(s) == Some(n) <==> s == OctetText(n)
  {
  }

  lemma ThreeDigitsExactly(s: string, n: Octet)
    requires |s| == 3 && IsDigit(s[0]) && IsDigit(s[1]) && IsDigit(s[2])
    ensures ParseOctet(s) == Some(n) <==> s == OctetText(n)
  {
    var x, y, z := Value(s[0]), Value(s[1]), Value(s[2]);
    DigitsOf(n, x, y, z);
    DigitExactly(s[0], n / 100);
    DigitExactly(s[1], n / 10 % 10);
    DigitExactly(s[2], n % 10);
    assert s[0] == '0' <==> x == 0;
    assert s == [s[0], s[1], s[2]];
  }

  /** The number that digits make, the last one counting once. */
  function Decimal(s: string): int {
    if s == [] then 0 else 10 * Decimal(s[..|s| - 1]) + (s[|s| - 1] as int - '0' as int)
  }

  lemma DecimalNext(s: string, d: nat)
    requires d < 10
    ensures Decimal(s + [Digit(d)]) == 10 * Decimal(s) + d
  {
    assert (s + [Digit(d)])[..|s|] == s;
  }

  /** The text of a number is the one without a leading zero that makes it. */
  lemma OctetTextDecimal(n: Octet)
    ensures Decimal(OctetText(n)) == n && (n > 0 ==> OctetText(n)[0] != '0')
  {
    hide Decimal, Digit;
    if n < 10 {
      DecimalOf(0, 0, n);
    } else if n < 100 {
      DecimalOf(0, n / 10, n % 10);
    } else {
      DecimalOf(n / 100, n / 10 % 10, n % 10);
    }
  }

  lemma DecimalOf(x: nat, y: nat, z: nat)
    requires x < 10 && y < 10 && z < 10
    ensures Decimal([Digit(z)]) == z
    ensures Decimal([Digit(y), Digit(z)]) == 10 * y + z
    ensures Decimal([Digit(x), Digit(y), Digit(z)]) == 100 * x + 10 * y + z
    ensures x > 0 ==> Digit(x) != '0'
    ensures y > 0 ==> Digit(y) != '0'
    ensures z > 0 ==> Digit(z) != '0'
  {
    assert [] + [Digit(z)] == [Digit(z)] && [] + [Digit(y)] == [Digit(y)] && [] + [Digit(x)] == [Digit(x)];
    assert [Digit(y)] + [Digit(z)] == [Digit(y), Digit(z)];
    assert [Digit(x)] + [Digit(y)] == [Digit(x), Digit(y)];
    assert [Digit(x), Digit(y)] + [Digit(z)] == [Digit(x), Digit(y), Digit(z)];
    assert Decimal([]) == 0;
    hide Decimal;
    DecimalNext([], z);
    DecimalNext([], y);
    DecimalNext([Digit(y)], z);
    DecimalNext([], x);
    DecimalNext([Digit(x)], y);
    DecimalNext([Digit(x), Digit(y)], z);
  }

  function Text(x: Address): string {
    Join([OctetText(x.a), OctetText(x.b), OctetText(x.c), OctetText(x.d)], '.')
  }

  function Parse(s: string): Option<Address> {
    var parts := Split(s, '.');
    if |parts| != 4 then None
    else
      var a, b, c, d := ParseOctet(parts[0]), ParseOctet(parts[1]), ParseOctet(parts[2]), ParseOctet(parts[3]);
      if a.None? || b.None? || c.None? || d.None? then None
      else Some(Address(a.value, b.value, c.value, d.value))
  }

  lemma TextParts(x: Address)
    ensures Text(x) == OctetText(x.a) + ['.'] + (OctetText(x.b) + ['.'] + (OctetText(x.c) + ['.'] + OctetText(x.d)))
  {
    var a, b, c, d := OctetText(x.a), OctetText(x.b), OctetText(x.c), OctetText(x.d);
    assert [c, d][1..] == [d] && [b, c, d][1..] == [c, d] && [a, b, c, d][1..] == [b, c, d];
    assert Join([c, d], '.') == c + ['.'] + d;
    assert Join([b, c, d], '.') == b + ['.'] + Join([c, d], '.');
  }

  /** The text of an address is parsed to it, and nothing else is. */
  lemma ParseExactly(s: string, x: Address)
    ensures Parse(s) == Some(x) <==> s == Text(x)
  {
    var texts := [OctetText(x.a), OctetText(x.b), OctetText(x.c), OctetText(x.d)];
    assert forall p :: p in texts ==> '.' !in p;
    SplitOfJoin(texts, '.');
    OctetTextExactly(texts[0], x.a);
    OctetTextExactly(texts[1], x.b);
    OctetTextExactly(texts[2], x.c);
    OctetTextExactly(texts[3], x.d);
    assert Parse(Text(x)) == Some(x);
    if Parse(s) == Some(x) {
      var parts := Split(s, '.');
      OctetTextExactly(parts[0], x.a);
      OctetTextExactly(parts[1], x.b);
      OctetTextExactly(parts[2], x.c);
      OctetTextExactly(parts[3], x.d);
      assert parts == texts;
      JoinOfSplit(s, '.');
    }
  }

  /** No address is shorter than seven characters, and none holds a NUL. */
  lemma TextShape(x: Address)
    ensures 7 <= |Text(x)| <= 15 && '\0' !in Text(x)
    ensures |Text(x)| == 7 <==> x.a < 10 && x.b < 10 && x.c < 10 && x.d < 10
  {
    TextParts(x);
    assert '\0' !in OctetText(x.a) && '\0' !in OctetText(x.b) && '\0' !in OctetText(x.c) && '\0' !in OctetText(x.d);
  }
}
