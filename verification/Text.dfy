/** Text as sequences of characters: the byte order that SQLite and Go use to
    compare strings, fixed-width and free-width decimals, and hexadecimal. */
module Text {
  import opened Wrappers

  // ---------------------------------------------------------------- order

  /** Lexicographic order; a proper prefix is smaller. */
  predicate Less(a: string, b: string) {
    b != [] && (a == [] || a[0] < b[0] || (a[0] == b[0] && Less(a[1..], b[1..])))
  }

  lemma {:induction false} LessIrreflexive(a: string)
    ensures !Less(a, a)
  {
    if a != [] {
      LessIrreflexive(a[1..]);
    }
  }

  lemma {:induction false} LessTotal(a: string, b: string)
    ensures Less(a, b) || a == b || Less(b, a)
    ensures !(Less(a, b) && Less(b, a))
  {
    if a != [] && b != [] {
      LessTotal(a[1..], b[1..]);
      assert a == [a[0]] + a[1..] && b == [b[0]] + b[1..];
    }
  }

  lemma {:induction false} LessTransitive(a: string, b: string, c: string)
    requires Less(a, b) && Less(b, c)
    ensures Less(a, c)
  {
    if a != [] && a[0] == b[0] == c[0] {
      LessTransitive(a[1..], b[1..], c[1..]);
    }
  }

  /** The order by its definition: at the first place where they differ, the smaller character
      or the end. */
  lemma {:induction false} LessAtFirstDifference(a: string, b: string)
    ensures Less(a, b) <==>
              exists i :: && 0 <= i <= |a| && i < |b| && a[..i] == b[..i]
                          && (i == |a| || a[i] < b[i])
  {
    if Less(a, b) {
      var i := FirstDifference(a, b);
    }
    forall i | 0 <= i <= |a| && i < |b| && a[..i] == b[..i] && (i == |a| || a[i] < b[i])
      ensures Less(a, b)
    {
      DifferenceDecides(a, b, i);
    }
  }

  lemma {:induction false} FirstDifference(a: string, b: string) returns (i: int)
    requires Less(a, b)
    ensures 0 <= i <= |a| && i < |b| && a[..i] == b[..i] && (i == |a| || a[i] < b[i])
  {
    i := 0;
    if a != [] && a[0] == b[0] {
      var j := FirstDifference(a[1..], b[1..]);
      i := j + 1;
      assert a[..i] == [a[0]] + a[1..][..j] && b[..i] == [b[0]] + b[1..][..j];
    }
  }

  lemma {:induction false} DifferenceDecides(a: string, b: string, i: int)
    requires 0 <= i <= |a| && i < |b| && a[..i] == b[..i] && (i == |a| || a[i] < b[i])
    ensures Less(a, b)
    decreases i
  {
    if i > 0 {
      assert a[0] == a[..i][0] && b[0] == b[..i][0];
      assert a[1..][..i - 1] == a[..i][1..] && b[1..][..i - 1] == b[..i][1..];
      DifferenceDecides(a[1..], b[1..], i - 1);
    }
  }

  /** Texts that start with equally long heads are ordered by head, then by tail. */
  lemma {:induction false} LessConcat(p: string, q: string, s: string, t: string)
    requires |p| == |q|
    ensures Less(p + s, q + t) <==> Less(p, q) || (p == q && Less(s, t))
  {
    if p == [] {
      assert p + s == s && q + t == t;
    } else {
      assert (p + s)[1..] == p[1..] + s && (q + t)[1..] == q[1..] + t;
      LessConcat(p[1..], q[1..], s, t);
      assert p == [p[0]] + p[1..] && q == [q[0]] + q[1..];
    }
  }

  // ---------------------------------------------------------------- digits

  predicate IsDigit(c: char) {
    '0' <= c <= '9'
  }

  function DigitChar(d: nat): (c: char)
    requires d < 10
    ensures IsDigit(c)
  {
    (d + '0' as int) as char
  }

  function DigitValue(c: char): (d: nat)
    requires IsDigit(c)
    ensures d < 10
  {
    c as int - '0' as int
  }

  predicate AllDigits(s: string) {
    forall i :: 0 <= i < |s| ==> IsDigit(s[i])
  }

  function Pow10(w: nat): (p: nat)
    ensures p >= 1
  {
    if w == 0 then 1 else 10 * Pow10(w - 1)
  }

  /** The last `w` decimal digits of `n`, zero padded. */
  function Digits(n: nat, w: nat): (s: string)
    ensures |s| == w && AllDigits(s)
  {
    if w == 0 then [] else Digits(n / 10, w - 1) + [DigitChar(n % 10)]
  }

  /** The number a digit string denotes. */
  function DigitsValue(s: string): (n: nat)
    requires AllDigits(s)
  {
    if s == [] then 0 else 10 * DigitsValue(s[..|s| - 1]) + DigitValue(s[|s| - 1])
  }

  lemma DigitRoundTrip(d: nat)
    requires d < 10
    ensures DigitValue(DigitChar(d)) == d
  {
  }

  lemma {:induction false} DigitsValueOfDigits(n: nat, w: nat)
    requires n < Pow10(w)
    ensures DigitsValue(Digits(n, w)) == n
  {
    if w != 0 {
      hide DigitChar, DigitValue, IsDigit;
      assert n == 10 * (n / 10) + n % 10;
      DigitsValueOfDigits(n / 10, w - 1);
      var front, last := Digits(n / 10, w - 1), DigitChar(n % 10);
      assert DigitValue(last) == n % 10 by { DigitRoundTrip(n % 10); }
      assert Digits(n, w)[..w - 1] == front && Digits(n, w)[w - 1] == last;
    }
  }

  lemma {:induction false} DigitsOfDigitsValue(s: string)
    requires AllDigits(s)
    ensures DigitsValue(s) < Pow10(|s|)
    ensures Digits(DigitsValue(s), |s|) == s
  {
    if s != [] {
      var front := s[..|s| - 1];
      DigitsOfDigitsValue(front);
      assert s == front + [s[|s| - 1]];
    }
  }

  /** Equally wide zero-padded decimals compare as text exactly as they do as numbers. */
  lemma {:induction false} DigitsOrder(a: nat, b: nat, w: nat)
    requires a < Pow10(w) && b < Pow10(w)
    ensures Less(Digits(a, w), Digits(b, w)) <==> a < b
    ensures Digits(a, w) == Digits(b, w) <==> a == b
  {
    DigitsValueOfDigits(a, w);
    DigitsValueOfDigits(b, w);
    if w == 0 {
      LessIrreflexive([]);
    } else {
      DigitsOrder(a / 10, b / 10, w - 1);
      LessConcat(Digits(a / 10, w - 1), Digits(b / 10, w - 1), [DigitChar(a % 10)], [DigitChar(b % 10)]);
      assert Less([DigitChar(a % 10)], [DigitChar(b % 10)]) <==> a % 10 < b % 10;
    }
  }

  // ---------------------------------------------------------------- integers and bytes

  /** Decimal without leading zeros, as %d prints a non-negative number. */
  function NatText(n: nat): (s: string)
    ensures s != [] && AllDigits(s)
  {
    if n < 10 then [DigitChar(n)] else NatText(n / 10) + [DigitChar(n % 10)]
  }

  function IntText(n: int): (s: string)
    ensures s != [] && forall c :: c in s ==> IsDigit(c) || c == '-'
  {
    if n < 0 then ['-'] + NatText(-n) else NatText(n)
  }

  lemma {:induction false} NatTextValue(n: nat)
    ensures DigitsValue(NatText(n)) == n
  {
    var s := NatText(n);
    if n < 10 {
      assert s[..0] == [];
    } else {
      NatTextValue(n / 10);
      assert s[..|s| - 1] == NatText(n / 10);
    }
  }

  /** Decimal as %d prints it: a minus sign for negative numbers, then the digits of the
      magnitude without leading zeros. */
  predicate SpellsNat(s: string, n: nat) {
    s != "" && AllDigits(s) && DigitsValue(s) == n && (|s| > 1 ==> s[0] != '0')
  }

  lemma {:induction false} NatTextSpells(n: nat)
    ensures SpellsNat(NatText(n), n)
  {
    hide DigitsValue;
    NatTextValue(n);
    if n >= 10 {
      NatTextSpells(n / 10);
      var front := NatText(n / 10);
      assert NatText(n)[0] == front[0];
      if |front| == 1 {
        OneDigit(front);
      }
    }
  }

  lemma {:induction false} OneDigit(s: string)
    requires |s| == 1 && AllDigits(s)
    ensures DigitsValue(s) == DigitValue(s[0])
  {
    assert s[..0] == [];
  }

  lemma {:induction false} IntTextSpells(n: int)
    ensures if n < 0 then IntText(n)[0] == '-' && SpellsNat(IntText(n)[1..], -n) else SpellsNat(IntText(n), n)
  {
    hide NatText, SpellsNat;
    if n < 0 {
      NatTextSpells(-n);
      assert IntText(n)[1..] == NatText(-n);
    } else {
      NatTextSpells(n);
    }
  }

  lemma {:induction false} IntTextInjective(m: int, n: int)
    requires IntText(m) == IntText(n)
    ensures m == n
  {
    hide NatText, DigitsValue;
    if m < 0 {
      NatTextValue(-m);
      assert IntText(m)[1..] == NatText(-m);
    } else {
      NatTextValue(m);
      assert IsDigit(IntText(m)[0]);
    }
    if n < 0 {
      NatTextValue(-n);
      assert IntText(n)[1..] == NatText(-n);
    } else {
      NatTextValue(n);
      assert IsDigit(IntText(n)[0]);
    }
  }

  type Byte = b: int | 0 <= b < 256 witness 0

  function HexChar(d: nat): (c: char)
    requires d < 16
    ensures IsHex(c)
  {
    if d < 10 then DigitChar(d) else (d - 10 + 'a' as int) as char
  }

  predicate IsHex(c: char) {
    IsDigit(c) || 'a' <= c <= 'f'
  }

  function HexValue(c: char): (d: nat)
    requires IsHex(c)
    ensures d < 16
  {
    if IsDigit(c) then DigitValue(c) else c as int - 'a' as int + 10
  }

  /** hex.EncodeToString. */
  function HexText(bytes: seq<Byte>): (s: string)
    ensures |s| == 2 * |bytes| && forall c :: c in s ==> IsHex(c)
  {
    if bytes == [] then [] else [HexChar(bytes[0] / 16), HexChar(bytes[0] % 16)] + HexText(bytes[1..])
  }

  /** hex.DecodeString on lower-case digits. */
  function HexBytes(s: string): (r: Option<seq<Byte>>)
    ensures r.Some? ==> |s| == 2 * |r.value|
    decreases |s|
  {
    if s == [] then Some([])
    else if |s| == 1 || !IsHex(s[0]) || !IsHex(s[1]) then None
    else match HexBytes(s[2..])
      case None => None
      case Some(rest) => Some([16 * HexValue(s[0]) + HexValue(s[1])] + rest)
  }

  lemma {:induction false} HexRoundTrip(bytes: seq<Byte>)
    ensures HexBytes(HexText(bytes)) == Some(bytes)
  {
    if bytes != [] {
      HexRoundTrip(bytes[1..]);
      assert HexText(bytes)[2..] == HexText(bytes[1..]);
      assert bytes == [bytes[0]] + bytes[1..];
    }
  }

  /** Every text that decodes is the text of its bytes. */
  lemma {:induction false} HexOfBytes(s: string)
    requires HexBytes(s).Some?
    ensures HexText(HexBytes(s).value) == s
    decreases |s|
  {
    if s != [] {
      HexOfBytes(s[2..]);
      var b := HexBytes(s).value;
      assert b[1..] == HexBytes(s[2..]).value;
      HexCharOfValue(s[0]);
      HexCharOfValue(s[1]);
      assert b[0] / 16 == HexValue(s[0]) && b[0] % 16 == HexValue(s[1]);
      assert s == [s[0], s[1]] + s[2..];
    }
  }

  lemma HexCharOfValue(c: char)
    requires IsHex(c)
    ensures HexChar(HexValue(c)) == c
  {
  }

  /** Two lower-case digits per byte, the high one first. */
  lemma {:induction false} HexSpells(bytes: seq<Byte>, i: nat)
    requires i < |bytes|
    ensures HexText(bytes)[2 * i] == "0123456789abcdef"[bytes[i] / 16]
    ensures HexText(bytes)[2 * i + 1] == "0123456789abcdef"[bytes[i] % 16]
  {
    if i > 0 {
      HexSpells(bytes[1..], i - 1);
    } else {
      HexCharSpells(bytes[0] / 16);
      HexCharSpells(bytes[0] % 16);
    }
  }

  lemma HexCharSpells(d: nat)
    requires d < 16
    ensures HexChar(d) == "0123456789abcdef"[d]
  {
  }

  // ---------------------------------------------------------------- separators

  /** The index of the first `c`, or the length. */
  function Find(s: string, c: char): (i: nat)
    ensures i <= |s| && c !in s[..i]
    ensures i < |s| ==> s[i] == c
  {
    if s == "" || s[0] == c then 0 else 1 + Find(s[1..], c)
  }

  lemma {:induction false} FindAfter(head: string, c: char, rest: string)
    requires c !in head
    ensures Find(head + [c] + rest, c) == |head|
  {
    var s := head + [c] + rest;
    if head != "" {
      FindAfter(head[1..], c, rest);
      assert s[1..] == head[1..] + [c] + rest;
    }
  }

  /** Texts that agree up to the first separator and after it are the only equal ones. */
  lemma {:induction false} SplitFirst(a: string, b: string, c: char, s: string, t: string)
    requires c !in a && c !in b && a + [c] + s == b + [c] + t
    ensures a == b && s == t
  {
    if a == [] || b == [] {
      assert (a + [c] + s)[0] == (b + [c] + t)[0];
      assert a == [] && b == [];
      assert (a + [c] + s)[1..] == s && (b + [c] + t)[1..] == t;
    } else {
      assert (a + [c] + s)[0] == (b + [c] + t)[0];
      assert (a + [c] + s)[1..] == a[1..] + [c] + s && (b + [c] + t)[1..] == b[1..] + [c] + t;
      SplitFirst(a[1..], b[1..], c, s, t);
      assert a == [a[0]] + a[1..] && b == [b[0]] + b[1..];
    }
  }

  lemma {:induction false} SplitLast(a: string, b: string, c: char, s: string, t: string)
    requires c !in s && c !in t && a + [c] + s == b + [c] + t
    ensures a == b && s == t
    decreases |s|
  {
    var x, y := a + [c] + s, b + [c] + t;
    if s == [] || t == [] {
      assert x[|x| - 1] == y[|y| - 1];
      assert s == [] && t == [];
      assert x[..|x| - 1] == a && y[..|y| - 1] == b;
    } else {
      var s', t' := s[..|s| - 1], t[..|t| - 1];
      assert x[|x| - 1] == s[|s| - 1] && y[|y| - 1] == t[|t| - 1];
      assert x[..|x| - 1] == a + [c] + s' && y[..|y| - 1] == b + [c] + t';
      SplitLast(a, b, c, s', t');
      assert s == s' + [s[|s| - 1]] && t == t' + [t[|t| - 1]];
    }
  }

  /** strings.Split: the parts between separators; there is always at least one. */
  function Split(s: string, c: char): (parts: seq<string>)
    ensures |parts| >= 1
    decreases |s|
  {
    var i := Find(s, c);
    if i == |s| then [s] else [s[..i]] + Split(s[i + 1..], c)
  }

  /** strings.Join with a one-character separator. */
  function Join(parts: seq<string>, c: char): string {
    if parts == [] then "" else if |parts| == 1 then parts[0] else parts[0] + [c] + Join(parts[1..], c)
  }

  /** Splitting takes off what stands before the first separator. */
  lemma {:induction false} SplitStep(head: string, c: char, rest: string)
    requires c !in head
    ensures Split(head + [c] + rest, c) == [head] + Split(rest, c)
  {
    hide Find;
    var s := head + [c] + rest;
    FindAfter(head, c, rest);
    assert s[..|head|] == head && s[|head| + 1..] == rest;
  }

  lemma {:induction false} SplitAppend(a: string, c: char, b: string)
    ensures Split(a + [c] + b, c) == Split(a, c) + Split(b, c)
    decreases |a|
  {
    hide Find, Split;
    var i := Find(a, c);
    if i == |a| {
      assert a[..i] == a;
      SplitPlain(a, c);
      SplitStep(a, c, b);
    } else {
      var x, y := a[..i], a[i + 1..];
      assert a == x + [c] + y;
      assert a + [c] + b == x + [c] + (y + [c] + b);
      SplitStep(x, c, y + [c] + b);
      SplitStep(x, c, y);
      SplitAppend(y, c, b);
      assert [x] + (Split(y, c) + Split(b, c)) == [x] + Split(y, c) + Split(b, c);
    }
  }

  lemma {:induction false} SplitPlain(part: string, c: char)
    requires c !in part
    ensures Split(part, c) == [part]
  {
    assert Find(part, c) == |part|;
    assert part[..|part|] == part;
  }

  /** A text is its own only part exactly when it has no separator. */
  lemma {:induction false} SplitOnce(s: string, c: char)
    ensures |Split(s, c)| == 1 <==> c !in s
    ensures c !in s ==> Split(s, c) == [s]
  {
    assert s[..|s|] == s;
  }

  lemma {:induction false} SplitHasNoSeparator(s: string, c: char)
    ensures forall i :: 0 <= i < |Split(s, c)| ==> c !in Split(s, c)[i]
    decreases |s|
  {
    var i := Find(s, c);
    if i < |s| {
      SplitHasNoSeparator(s[i + 1..], c);
    } else {
      assert s[..i] == s;
    }
  }

  /** Splitting undoes joining, as long as the parts contain no separator. */
  lemma {:induction false} SplitOfJoin(parts: seq<string>, c: char)
    requires parts != [] && forall i :: 0 <= i < |parts| ==> c !in parts[i]
    ensures Split(Join(parts, c), c) == parts
  {
    hide Split;
    if |parts| == 1 {
      SplitPlain(parts[0], c);
    } else {
      SplitAppend(parts[0], c, Join(parts[1..], c));
      SplitPlain(parts[0], c);
      SplitOfJoin(parts[1..], c);
      assert parts == [parts[0]] + parts[1..];
    }
  }
}
