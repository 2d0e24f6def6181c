/** The JavaScript string and number built-ins the date helper uses:
    `String.prototype.split` with a one-character separator, `Number(str)`,
    `String(n)` on integers and `padStart(2, "0")`. */
module JsText {
  import opened Wrappers

  // ---------------------------------------------------------------------
  // split

  /** The first position of c in s. */
  function IndexOf(s: string, c: char): (k: nat)
    requires c in s
    ensures k < |s| && s[k] == c && c !in s[..k]
  {
    if s[0] == c then 0 else 1 + IndexOf(s[1..], c)
  }

  /** `parts.join(sep)`. */
  function Join(parts: seq<string>, sep: char): string
    requires |parts| >= 1
  {
    if |parts| == 1 then parts[0] else parts[0] + [sep] + Join(parts[1..], sep)
  }

  /** `s.split(sep)`: the maximal separator-free pieces of s, in order. */
  function Split(s: string, sep: char): (r: seq<string>)
    ensures |r| >= 1
    ensures Join(r, sep) == s
    ensures forall i :: 0 <= i < |r| ==> sep !in r[i]
    decreases |s|
  {
    if sep !in s then [s]
    else
      var k := IndexOf(s, sep);
      var rest := Split(s[k + 1..], sep);
      assert Join([s[..k]] + rest, sep) == s[..k] + [sep] + Join(rest, sep);
      assert s == s[..k] + [sep] + s[k + 1..];
      [s[..k]] + rest
  }

  /** The first separator after a separator-free prefix is the one right after it. */
  lemma {:induction false} IndexOfAfterPrefix(p: string, c: char, rest: string)
    requires c !in p
    ensures c in p + [c] + rest && IndexOf(p + [c] + rest, c) == |p|
    decreases |p|
  {
    var s := p + [c] + rest;
    assert s[|p|] == c;
    if |p| > 0 {
      assert s[1..] == p[1..] + [c] + rest;
      IndexOfAfterPrefix(p[1..], c, rest);
    }
  }

  /** A separator-free piece followed by the separator splits off as the first piece. */
  lemma SplitCons(p: string, sep: char, rest: string)
    requires sep !in p
    ensures Split(p + [sep] + rest, sep) == [p] + Split(rest, sep)
  {
    var s := p + [sep] + rest;
    IndexOfAfterPrefix(p, sep, rest);
    assert s[..|p|] == p;
    assert s[|p| + 1..] == rest;
  }

  /** Splitting a join of separator-free pieces gives the pieces back. */
  lemma {:induction false} SplitJoin(parts: seq<string>, sep: char)
    requires |parts| >= 1
    requires forall i :: 0 <= i < |parts| ==> sep !in parts[i]
    ensures Split(Join(parts, sep), sep) == parts
    decreases |parts|
  {
    if |parts| > 1 {
      SplitCons(parts[0], sep, Join(parts[1..], sep));
      SplitJoin(parts[1..], sep);
    } else {
      assert sep !in parts[0];
    }
  }

  // ---------------------------------------------------------------------
  // Decimal digits

  predicate IsDigit(c: char) {
    '0' <= c <= '9'
  }

  predicate AllDigits(s: string) {
    forall i :: 0 <= i < |s| ==> IsDigit(s[i])
  }

  function DigitValue(c: char): (r: nat)
    requires IsDigit(c)
    ensures r < 10
  {
    c as int - '0' as int
  }

  function DigitChar(d: nat): (c: char)
    requires d < 10
    ensures IsDigit(c) && DigitValue(c) == d
  {
    ('0' as int + d) as char
  }

  /** The value of a string of decimal digits, most significant first. */
  function DigitsValue(s: string): nat
    requires AllDigits(s)
  {
    if s == [] then 0 else DigitsValue(s[..|s| - 1]) * 10 + DigitValue(s[|s| - 1])
  }

  /** `String(n)` for a non-negative integer: decimal, no leading zeros. */
  function NatStr(n: nat): string {
    if n < 10 then [DigitChar(n)] else NatStr(n / 10) + [DigitChar(n % 10)]
  }

  /** NatStr writes n's decimal digits, with no leading zero unless n is 0. */
  lemma {:induction false} NatStrDigits(n: nat)
    ensures |NatStr(n)| >= 1 && AllDigits(NatStr(n))
    ensures DigitsValue(NatStr(n)) == n
    ensures NatStr(n)[0] == '0' ==> n == 0
  {
    if n >= 10 {
      NatStrDigits(n / 10);
      var r := NatStr(n);
      assert r[..|r| - 1] == NatStr(n / 10);
    }
  }

  /** The value of a two-digit string. */
  lemma DigitsValueOfTwo(t: string)
    requires |t| == 2 && AllDigits(t)
    ensures DigitsValue(t) == DigitValue(t[0]) * 10 + DigitValue(t[1])
  {
    assert t[..1][..0] == [];
    assert DigitsValue(t[..1]) == DigitValue(t[0]);
    assert DigitsValue(t) == DigitsValue(t[..1]) * 10 + DigitValue(t[1]);
  }

  /** The value of a four-digit string. */
  lemma DigitsValueOfFour(t: string)
    requires |t| == 4 && AllDigits(t)
    ensures DigitsValue(t) == DigitValue(t[0]) * 1000 + DigitValue(t[1]) * 100 + DigitValue(t[2]) * 10 + DigitValue(t[3])
  {
    assert t[..1][..0] == [];
    assert DigitsValue(t[..1]) == DigitValue(t[0]);
    assert t[..2][..1] == t[..1];
    assert DigitsValue(t[..2]) == DigitsValue(t[..1]) * 10 + DigitValue(t[1]);
    assert t[..3][..2] == t[..2];
    assert DigitsValue(t[..3]) == DigitsValue(t[..2]) * 10 + DigitValue(t[2]);
    assert t[..3] == t[..|t| - 1];
    assert DigitsValue(t) == DigitsValue(t[..3]) * 10 + DigitValue(t[3]);
  }

  /** `String(n)` for any integer. */
  function IntStr(n: int): string {
    if n < 0 then "-" + NatStr(-n) else NatStr(n)
  }

  lemma {:induction false} LeadingDigitPositive(t: string)
    requires |t| >= 1 && AllDigits(t) && t[0] != '0'
    ensures DigitsValue(t) >= 1
    decreases |t|
  {
    if |t| > 1 {
      LeadingDigitPositive(t[..|t| - 1]);
    }
  }

  /** A digit string without a leading zero is what String prints for its value. */
  lemma {:induction false} NatStrOfDigits(t: string)
    requires |t| >= 1 && AllDigits(t)
    requires t[0] != '0' || |t| == 1
    ensures NatStr(DigitsValue(t)) == t
    decreases |t|
  {
    if |t| > 1 {
      var p := t[..|t| - 1];
      LeadingDigitPositive(p);
      NatStrOfDigits(p);
      var v := DigitsValue(t);
      assert v == DigitsValue(p) * 10 + DigitValue(t[|t| - 1]);
      assert v / 10 == DigitsValue(p) && v % 10 == DigitValue(t[|t| - 1]);
      assert t == p + [t[|t| - 1]];
    }
  }

  // ---------------------------------------------------------------------
  // padStart(2, "0")

  function PadStart2(s: string): string {
    if |s| >= 2 then s else if |s| == 1 then ['0'] + s else "00"
  }

  /** A two-digit string is what padStart(2, "0") makes of the printed value. */
  lemma TwoDigitsRoundTrip(t: string)
    requires |t| == 2 && AllDigits(t)
    ensures PadStart2(NatStr(DigitsValue(t))) == t
  {
    if t[0] != '0' {
      NatStrOfDigits(t);
    } else {
      assert DigitsValue(t[..1]) == 0;
      assert DigitsValue(t) == DigitValue(t[1]);
      assert NatStr(DigitsValue(t)) == [t[1]];
    }
  }

  /** Padding the printed value of a number below 100 gives two digits of that value. */
  lemma Pad2OfSmall(n: nat)
    requires n < 100
    ensures |PadStart2(NatStr(n))| == 2
    ensures AllDigits(PadStart2(NatStr(n))) && DigitsValue(PadStart2(NatStr(n))) == n
  {
    var t := PadStart2(NatStr(n));
    if n < 10 {
      assert t == ['0', DigitChar(n)];
      assert t[..1] == ['0'];
    } else {
      NatStrDigits(n / 10);
      assert NatStr(n) == NatStr(n / 10) + [DigitChar(n % 10)];
      assert t == NatStr(n);
      assert t[..1] == NatStr(n / 10);
    }
  }

  // ---------------------------------------------------------------------
  // Number(str)

  /** A JavaScript number as this model needs it: an integer or NaN. */
  datatype NumberValue = Num(v: int) | NaN

  /** `Number(x)` for x a string or undefined (None). The empty string is 0,
      a string of decimal digits is its value; undefined and every other
      string are NaN here. */
  function ToNumber(x: Option<string>): (r: NumberValue)
    ensures x.None? ==> r.NaN?
    ensures x == Some("") ==> r == Num(0)
    ensures x.Some? && x.value != "" ==> (r.Num? <==> AllDigits(x.value))
    ensures x.Some? && AllDigits(x.value) ==> r == Num(DigitsValue(x.value))
    ensures r.Num? ==> r.v >= 0
  {
    match x
    case None => NaN
    case Some(s) => if AllDigits(s) then Num(DigitsValue(s)) else NaN
  }
}
