/** The entries of rfid.json and four_door_controller.json: "CARD:EMPLOYEE" strings. */
module CardEntries {
  import opened Options

  /** QChar::isSpace. */
  predicate Space(c: char) {
    || c == ' ' || '\t' <= c <= '\r' || c == '\U{0085}' || c == '\U{00A0}' || c == '\U{1680}'
    || '\U{2000}' <= c <= '\U{200A}' || c == '\U{2028}' || c == '\U{2029}' || c == '\U{202F}' || c == '\U{205F}'
    || c == '\U{3000}'
  }

  function TrimLeft(s: string): string {
    if s != "" && Space(s[0]) then TrimLeft(s[1..]) else s
  }

  function TrimRight(s: string): string {
    if s != "" && Space(s[|s| - 1]) then TrimRight(s[..|s| - 1]) else s
  }

  function Trim(s: string): string {
    TrimRight(TrimLeft(s))
  }

  function Colon(s: string): (i: nat)
    ensures i <= |s| && (i < |s| ==> s[i] == ':')
    ensures forall j :: 0 <= j < i ==> s[j] != ':'
  {
    if s == "" || s[0] == ':' then 0 else 1 + Colon(s[1..])
  }

  /** split(":") gives exactly two parts. */
  function Halves(s: string): (h: Option<(string, string)>)
    ensures h.Some? ==> s == h.value.0 + ":" + h.value.1 && ':' !in h.value.0 && ':' !in h.value.1
  {
    var i := Colon(s);
    if i < |s| && ':' !in s[i + 1..] then Some((s[..i], s[i + 1..])) else None
  }

  datatype Kind = Invalid | Unassigned | Assigned(employee: string, code: string)

  function WithEmployee(half: string, code: string): Kind {
    var employee := Trim(half);
    if employee == "-" || employee == "" then Unassigned else Assigned(employee, code)
  }

  // ----- RFID cards -----------------------------------------------------------------

  function HexDigit(c: char): Option<nat> {
    if '0' <= c <= '9' then Some(c as int - '0' as int)
    else if 'a' <= c <= 'f' then Some(c as int - 'a' as int + 10)
    else if 'A' <= c <= 'F' then Some(c as int - 'A' as int + 10)
    else None
  }

  function HexDigits(s: string): Option<nat> {
    if s == "" then Some(0) else
    var high := HexDigits(s[..|s| - 1]);
    var low := HexDigit(s[|s| - 1]);
    if high.Some? && low.Some? then Some(16 * high.value + low.value) else None
  }

  /** The magnitude behind an optional 0x. */
  function HexMagnitude(s: string): Option<nat> {
    var digits := if |s| >= 2 && s[0] == '0' && (s[1] == 'x' || s[1] == 'X') then s[2..] else s;
    if digits == "" then None else HexDigits(digits)
  }

  /** QString::toLongLong in base 16, where it succeeds. */
  function HexValue(s: string): Option<int> {
    var t := Trim(s);
    var signed := t != "" && (t[0] == '-' || t[0] == '+');
    var m := HexMagnitude(if signed then t[1..] else t);
    if m.None? then None else
    var n: int := m.value;
    var value := if signed && t[0] == '-' then -n else n;
    if -0x8000_0000_0000_0000 <= value < 0x8000_0000_0000_0000 then Some(value) else None
  }

  function DecimalDigits(n: nat): (s: string)
    ensures s != "" && forall i :: 0 <= i < |s| ==> '0' <= s[i] <= '9'
    ensures s[0] == '0' ==> s == "0" && n == 0
  {
    var last := ['0' + (n % 10) as char];
    if n < 10 then last else DecimalDigits(n / 10) + last
  }

  /** QString::number. */
  function Decimal(n: int): string {
    if n < 0 then "-" + DecimalDigits(-n) else DecimalDigits(n)
  }

  /** The stored form of a card: the last two hex digits are dropped, the rest is written in
      decimal; what is no hexadecimal number stays as it is. */
  function Card(half: string): string {
    var hex := Trim(half);
    var card := if |hex| > 2 then hex[..|hex| - 2] else hex;
    var value := HexValue(card);
    if value.Some? then Decimal(value.value) else card
  }

  function RfidKind(entry: string): Kind {
    var h := Halves(entry);
    if entry == "" || h.None? then Invalid else
    var card := Card(h.value.0);
    if card == "" || card == "00000000" then Invalid else WithEmployee(h.value.1, card)
  }

  lemma {:induction false} ZerosAreZero(s: string)
    requires forall i :: 0 <= i < |s| ==> s[i] == '0'
    ensures HexDigits(s) == Some(0)
  {
    if s == "" {
    } else {
      ZerosAreZero(s[..|s| - 1]);
    }
  }

  lemma NoSpaceNoTrim(s: string)
    requires s != "" && !Space(s[0]) && !Space(s[|s| - 1])
    ensures Trim(s) == s
  {}

  /** The test for the card "00000000" comes after the conversion to decimal and never holds:
      an entry is invalid exactly when it is not two halves or has no card at all. */
  lemma ZeroTestIsDead(entry: string)
    ensures RfidKind(entry) == Invalid
        <==> Halves(entry).None? || Trim(Halves(entry).value.0) == ""
  {
    var h := Halves(entry);
    if h.Some? {
      var hex := Trim(h.value.0);
      var card := if |hex| > 2 then hex[..|hex| - 2] else hex;
      if card == "00000000" {
        NoSpaceNoTrim(card);
        ZerosAreZero(card);
        assert HexValue(card) == Some(0);
      }
      NotEightZeros(if HexValue(card).Some? then HexValue(card).value else 0);
    }
  }

  lemma NotEightZeros(n: int)
    ensures Decimal(n) != "" && Decimal(n) != "00000000"
  {
    assert "00000000"[0] == '0' && "00000000" != "0";
  }

  /** So the all-zero card is assigned like any other, under the name "0". */
  lemma ZeroCardIsAssigned(entry: string, employee: string)
    requires entry == "0000000000:" + employee && ':' !in employee
    requires Trim(employee) != "" && Trim(employee) != "-"
    ensures RfidKind(entry) == Assigned(Trim(employee), "0")
  {
    var zeros := "0000000000";
    assert forall i :: 0 <= i < 10 ==> zeros[i] == '0';
    assert forall i :: 0 <= i < 10 ==> entry[i] == zeros[i];
    assert entry[10] == ':' && entry[11..] == employee;
    assert Colon(entry) == 10;
    assert entry[..10] == zeros;
    NoSpaceNoTrim(zeros);
    var card := zeros[..8];
    NoSpaceNoTrim(card);
    ZerosAreZero(card);
    assert HexValue(card) == Some(0);
    assert Decimal(0) == DecimalDigits(0) == "0";
  }

  // ----- QR codes -----------------------------------------------------------------------

  function QrKind(entry: string): Kind {
    var h := Halves(entry);
    if entry == "" || h.None? then Invalid else
    var code := Trim(h.value.0);
    if code == "" then Invalid else WithEmployee(h.value.1, code)
  }
}
