/** What the entries of the two lists mean, stated on their text: how an entry falls into card and
    employee, and which number a card stands for. */
module CardNumbers {
  import opened Options
  import opened CardEntries

  // ----- Positional notation -------------------------------------------------------------

  const LOWER := "0123456789abcdef"
  const UPPER := "0123456789ABCDEF"

  function Power(base: nat, n: nat): nat {
    if n == 0 then 1 else base * Power(base, n - 1)
  }

  /** The number that the digits ds, the first one being the most significant, stand for. */
  function Weighted(ds: seq<nat>, base: nat): nat {
    if ds == [] then 0 else ds[0] * Power(base, |ds| - 1) + Weighted(ds[1..], base)
  }

  /** The text is these digits, in either case. */
  predicate Spells(s: string, ds: seq<nat>, base: nat)
    requires base <= 16
  {
    |s| == |ds| && forall i :: 0 <= i < |s| ==> ds[i] < base && (s[i] == LOWER[ds[i]] || s[i] == UPPER[ds[i]])
  }

  lemma {:induction false} WeightedSnoc(ds: seq<nat>, d: nat, base: nat)
    ensures Weighted(ds + [d], base) == base * Weighted(ds, base) + d
  {
    if ds == [] {
      assert [d][1..] == [] && Power(base, 0) == 1;
    } else {
      var e := ds + [d];
      WeightedSnoc(ds[1..], d, base);
      assert e[1..] == ds[1..] + [d];
      Regroup(ds[0], base, Power(base, |ds| - 1), Weighted(ds[1..], base));
    }
  }

  lemma Regroup(d: nat, base: nat, p: nat, w: nat)
    ensures d * (base * p) + base * w == base * (d * p + w)
  {}

  lemma HexDigitSpelled(c: char, d: nat)
    requires d < 16 && (c == LOWER[d] || c == UPPER[d])
    ensures HexDigit(c) == Some(d) && !Space(c) && c != '+' && c != '-' && c != 'x' && c != 'X' && c != ':'
  {}

  lemma HexDigitValue(c: char)
    requires HexDigit(c).Some?
    ensures HexDigit(c).value < 16 && (c == LOWER[HexDigit(c).value] || c == UPPER[HexDigit(c).value])
  {}

  lemma {:induction false} HexDigitsOf(s: string, ds: seq<nat>)
    requires Spells(s, ds, 16)
    ensures HexDigits(s) == Some(Weighted(ds, 16))
  {
    if s == "" {
    } else {
      var n := |s| - 1;
      HexDigitsOf(s[..n], ds[..n]);
      HexDigitSpelled(s[n], ds[n]);
      WeightedSnoc(ds[..n], ds[n], 16);
      assert ds[..n] + [ds[n]] == ds;
    }
  }

  lemma {:induction false} DigitsOfHex(s: string) returns (ds: seq<nat>)
    requires HexDigits(s).Some?
    ensures Spells(s, ds, 16)
  {
    if s == "" {
      ds := [];
    } else {
      var n := |s| - 1;
      ds := DigitsOfHex(s[..n]);
      HexDigitValue(s[n]);
      ds := ds + [HexDigit(s[n]).value];
      assert forall i :: 0 <= i < n ==> s[i] == s[..n][i];
    }
  }

  /** The decimal digits of n: they stand for n, without a zero in front. */
  lemma {:induction false} DecimalDigitsOf(n: nat) returns (ds: seq<nat>)
    ensures Spells(DecimalDigits(n), ds, 10) && Weighted(ds, 10) == n && ds != []
    ensures ds[0] == 0 ==> n == 0 && |ds| == 1
  {
    DecimalDigit(n % 10);
    if n < 10 {
      ds := [n];
      WeightedSnoc([], n, 10);
      assert [] + [n] == [n];
    } else {
      var high := DecimalDigitsOf(n / 10);
      ds := high + [n % 10];
      WeightedSnoc(high, n % 10, 10);
    }
  }

  lemma DecimalDigit(d: nat)
    requires d < 10
    ensures '0' + d as char == LOWER[d]
  {}

  // ----- Numbers -------------------------------------------------------------------------

  /** The text is a hexadecimal number: a sign or none, 0x or not, and digits. */
  predicate HexForm(s: string, sign: string, prefix: string, digits: string, ds: seq<nat>) {
    && (sign == "" || sign == "+" || sign == "-") && (prefix == "" || prefix == "0x" || prefix == "0X")
    && s == sign + (prefix + digits) && digits != "" && Spells(digits, ds, 16)
  }

  function Signed(sign: string, n: int): int {
    if sign == "-" then -n else n
  }

  predicate Int64(n: int) {
    -0x8000_0000_0000_0000 <= n < 0x8000_0000_0000_0000
  }

  lemma HexMagnitudeOf(m: string, prefix: string, digits: string, ds: seq<nat>)
    requires prefix == "" || prefix == "0x" || prefix == "0X"
    requires m == prefix + digits && digits != "" && Spells(digits, ds, 16)
    ensures HexMagnitude(m) == Some(Weighted(ds, 16))
    ensures m[0] != '+' && m[0] != '-'
  {
    HexDigitsOf(digits, ds);
    HexDigitSpelled(digits[0], ds[0]);
    hide HexDigits, Spells, HexDigit, Weighted;
    if prefix == "" {
      if |digits| > 1 {
        NoPrefix(digits, ds);
      }
      assert m == digits;
    } else {
      assert m[0] == prefix[0] && m[1] == prefix[1] && m[2..] == digits;
    }
  }

  lemma NoPrefix(digits: string, ds: seq<nat>)
    requires Spells(digits, ds, 16) && |digits| > 1
    ensures digits[1] != 'x' && digits[1] != 'X'
  {
    HexDigitSpelled(digits[1], ds[1]);
  }

  lemma HexValueSigned(t: string, sign: string, m: string, n: nat)
    requires sign == "" || sign == "+" || sign == "-"
    requires Trim(t) == sign + m && HexMagnitude(m) == Some(n) && m != "" && m[0] != '+' && m[0] != '-'
    ensures HexValue(t) == if Int64(Signed(sign, n)) then Some(Signed(sign, n)) else None
  {
    hide HexMagnitude, Trim;
    var s := Trim(t);
    if sign == "" {
      assert s == m;
    } else {
      assert s[0] == sign[0] && s[1..] == m;
    }
  }

  /** Such a text is read as its number if it fits 64 bits, and as none otherwise. */
  lemma HexValueOf(t: string, sign: string, prefix: string, digits: string, ds: seq<nat>)
    requires HexForm(Trim(t), sign, prefix, digits, ds)
    ensures var n := Signed(sign, Weighted(ds, 16));
            HexValue(t) == if Int64(n) then Some(n) else None
  {
    hide HexValue, HexMagnitude, Trim, Spells;
    HexMagnitudeOf(prefix + digits, prefix, digits, ds);
    HexValueSigned(t, sign, prefix + digits, Weighted(ds, 16));
  }

  /** And no other text is read as a number. */
  lemma HexFormOf(t: string) returns (sign: string, prefix: string, digits: string, ds: seq<nat>)
    requires HexValue(t).Some?
    ensures HexForm(Trim(t), sign, prefix, digits, ds)
  {
    var s := Trim(t);
    sign := if s[0] == '-' || s[0] == '+' then s[..1] else "";
    var m := s[|sign|..];
    prefix := if |m| >= 2 && m[0] == '0' && (m[1] == 'x' || m[1] == 'X') then m[..2] else "";
    assert HexMagnitude(m).Some?;
    digits := m[|prefix|..];
    ds := DigitsOfHex(digits);
    assert prefix != "" ==> prefix == ['0', m[1]];
    assert sign != "" ==> sign == [s[0]];
    assert m == prefix + digits && s == sign + m;
  }

  // ----- Cards ---------------------------------------------------------------------------

  lemma NoSpaceAround(s: string, ds: seq<nat>)
    requires Spells(s, ds, 16) && s != ""
    ensures Trim(s) == s
  {
    HexDigitSpelled(s[0], ds[0]);
    HexDigitSpelled(s[|s| - 1], ds[|s| - 1]);
    NoSpaceNoTrim(s);
  }

  /** The stored text of a card is the decimal form of the hexadecimal number in front of the last
      two characters, whatever these are: the same number, without a zero in front. */
  lemma CardIsItsNumber(half: string, digits: string, x: char, y: char, ds: seq<nat>) returns (es: seq<nat>)
    requires digits != "" && Spells(digits, ds, 16) && Int64(Weighted(ds, 16))
    requires Trim(half) == digits + [x, y]
    ensures Spells(Card(half), es, 10) && Weighted(es, 10) == Weighted(ds, 16)
    ensures es != [] && (es[0] == 0 ==> |es| == 1)
  {
    NoSpaceAround(digits, ds);
    assert "" + ("" + digits) == digits;
    HexValueOf(digits, "", "", digits, ds);
    assert Trim(half)[..|digits|] == digits;
    es := DecimalDigitsOf(Weighted(ds, 16));
  }

  /** What the two characters access behind a card are does not matter; a card of one or two
      characters has none.  What is no number is stored as it is. */
  lemma CardExact(half: string, body: string, access: string)
    requires Trim(half) == body + access && if access == "" then |body| <= 2 else |access| == 2 && body != ""
    ensures HexValue(body).Some? ==> Card(half) == Decimal(HexValue(body).value)
    ensures HexValue(body).None? ==> Card(half) == body
  {
    assert Trim(half)[..|body|] == body;
    assert access == "" ==> Trim(half) == body;
  }

  // ----- Entries -------------------------------------------------------------------------

  predicate AllSpace(s: string) {
    forall i :: 0 <= i < |s| ==> Space(s[i])
  }

  lemma {:induction false} TrimLeftExact(s: string) returns (a: string)
    ensures s == a + TrimLeft(s) && AllSpace(a)
    ensures TrimLeft(s) != "" ==> !Space(TrimLeft(s)[0])
  {
    if s != "" && Space(s[0]) {
      a := TrimLeftExact(s[1..]);
      a := [s[0]] + a;
      assert s == [s[0]] + s[1..];
    } else {
      a := "";
    }
  }

  lemma {:induction false} TrimRightExact(s: string) returns (b: string)
    ensures s == TrimRight(s) + b && AllSpace(b)
    ensures TrimRight(s) != "" ==> !Space(TrimRight(s)[|TrimRight(s)| - 1]) && TrimRight(s)[0] == s[0]
  {
    if s != "" && Space(s[|s| - 1]) {
      b := TrimRightExact(s[..|s| - 1]);
      b := b + [s[|s| - 1]];
      assert s == s[..|s| - 1] + [s[|s| - 1]];
    } else {
      b := "";
    }
  }

  /** Trimming takes the spaces off both ends, and nothing else. */
  lemma TrimExact(s: string) returns (a: string, b: string)
    ensures s == a + Trim(s) + b && AllSpace(a) && AllSpace(b)
    ensures Trim(s) != "" ==> !Space(Trim(s)[0]) && !Space(Trim(s)[|Trim(s)| - 1])
  {
    a := TrimLeftExact(s);
    b := TrimRightExact(TrimLeft(s));
    assert a + (Trim(s) + b) == a + Trim(s) + b;
  }

  lemma HalvesOf(entry: string, left: string, right: string)
    requires entry == left + ":" + right && ':' !in left && ':' !in right
    ensures Halves(entry) == Some((left, right))
  {
    assert entry[|left|] == ':' && Colon(entry) == |left| by {
      assert forall j :: 0 <= j < |left| ==> entry[j] == left[j];
    }
    assert entry[..|left|] == left && entry[|left| + 1..] == right;
  }

  /** An entry with one colon: the card stands on the left and the employee on the right, both
      trimmed; no card makes it invalid, and no employee or "-" an unassigned card. */
  lemma EntryExact(entry: string, left: string, right: string)
    requires entry == left + ":" + right && ':' !in left && ':' !in right
    ensures RfidKind(entry) == if Trim(left) == "" then Invalid
                               else if Trim(right) == "" || Trim(right) == "-" then Unassigned
                               else Assigned(Trim(right), Card(left))
    ensures QrKind(entry) == if Trim(left) == "" then Invalid
                             else if Trim(right) == "" || Trim(right) == "-" then Unassigned
                             else Assigned(Trim(right), Trim(left))
  {
    HalvesOf(entry, left, right);
    ZeroTestIsDead(entry);
    hide Trim, Card, Halves;
  }

  /** Every other entry is invalid. */
  lemma OnlyTheseCount(entry: string) returns (left: string, right: string)
    requires RfidKind(entry) != Invalid || QrKind(entry) != Invalid
    ensures entry == left + ":" + right && ':' !in left && ':' !in right
  {
    left, right := Halves(entry).value.0, Halves(entry).value.1;
  }
}
