/** Ids as hexadecimal text. */
module HexIds {
  import opened Results
  import opened Upstream
  import CellBytes

  /** The id stored for NA; never a cell. */
  const NA_ID: Id := 0xFC00_0000_0000_0000

  const TWO_64: nat := 0x1_0000_0000_0000_0000

  // --- Digits ---

  /** A lower-case hex digit. */
  function Digit(nibble: nat): char
    requires nibble < 16
  {
    if nibble < 10 then ('0' as int + nibble) as char else ('a' as int + nibble - 10) as char
  }

  predicate IsHex(c: char) {
    '0' <= c <= '9' || 'a' <= c <= 'f' || 'A' <= c <= 'F'
  }

  /** The value of a hex digit in either case. */
  function Nibble(c: char): (n: nat)
    requires IsHex(c)
    ensures n < 16
  {
    if '0' <= c <= '9' then c as int - '0' as int
    else if 'a' <= c <= 'f' then c as int - 'a' as int + 10
    else c as int - 'A' as int + 10
  }

  function LowerCase(c: char): char {
    if 'A' <= c <= 'F' then (c as int - 'A' as int + 'a' as int) as char else c
  }

  lemma DigitOfNibble(c: char)
    requires IsHex(c)
    ensures Digit(Nibble(c)) == LowerCase(c)
  {
  }

  lemma NibbleOfDigit(n: nat)
    requires n < 16
    ensures IsHex(Digit(n)) && Nibble(Digit(n)) == n && LowerCase(Digit(n)) == Digit(n)
  {
  }

  predicate AllHex(digits: string) {
    forall i :: 0 <= i < |digits| ==> IsHex(digits[i])
  }

  // --- Formatting ---

  /** The low `n` hex digits of an id, most significant first. */
  function Digits(id: nat, n: nat): (s: string)
    ensures |s| == n
  {
    if n == 0 then "" else Digits(id / 16, n - 1) + [Digit(id % 16)]
  }

  /** Sixteen digits, zero-padded. */
  function FormatId(id: Id): string {
    Digits(id, 16)
  }

  // --- Parsing ---

  /** One more digit: shift the id left four bits, dropping what overflows, and
      put the digit in the gap. */
  function Append(id: Id, nibble: nat): Id
    requires nibble < 16
  {
    (id * 16) % TWO_64 + nibble
  }

  /** The id a run of hex digits spells. */
  function ValueOf(digits: string): Id
    requires AllHex(digits)
  {
    if digits == "" then 0
    else Append(ValueOf(digits[..|digits| - 1]), Nibble(digits[|digits| - 1]))
  }

  /** The text after an optional `0x`. */
  function Unprefixed(s: string): string {
    if |s| >= 2 && s[0] == '0' && (s[1] == 'x' || s[1] == 'X') then s[2..] else s
  }

  /** An accepted spelling: one to sixteen hex digits after the prefix. */
  predicate Spells(s: string) {
    1 <= |Unprefixed(s)| <= 16 && AllHex(Unprefixed(s))
  }

  function Parsed(s: string): Option<Id> {
    if Spells(s) then Some(ValueOf(Unprefixed(s))) else None
  }

  method ParseHexId(s: string) returns (out: Option<Id>)
    ensures out == Parsed(s)
  {
    var digits := Unprefixed(s);
    if |digits| == 0 || |digits| > 16 {
      return None;
    }
    var id: Id := 0;
    for i := 0 to |digits|
      invariant AllHex(digits[..i]) && id == ValueOf(digits[..i])
    {
      var c := digits[i];
      if !IsHex(c) {
        return None;
      }
      assert digits[..i + 1][..i] == digits[..i];
      id := Append(id, Nibble(c));
    }
    assert digits[..|digits|] == digits;
    return Some(id);
  }

  // --- Round trips ---

  function Pow16(n: nat): (p: nat)
    ensures p > 0
  {
    if n == 0 then 1 else 16 * Pow16(n - 1)
  }

  lemma Pow16Of15()
    ensures Pow16(15) == 0x1000_0000_0000_0000
  {
    assert Pow16(3) == 0x1000;
    assert Pow16(6) == 0x100_0000;
    assert Pow16(9) == 0x10_0000_0000;
    assert Pow16(12) == 0x1_0000_0000_0000;
  }

  lemma Pow16Bounds(n: nat)
    requires n <= 15
    ensures 16 * Pow16(n) <= TWO_64
  {
    Pow16Grows(n, 15);
    Pow16Of15();
  }

  lemma {:induction false} Pow16Grows(n: nat, m: nat)
    requires n <= m
    ensures Pow16(n) <= Pow16(m)
  {
    if n < m {
      Pow16Grows(n, m - 1);
    }
  }

  /** Up to sixteen digits nothing overflows: each digit is kept. */
  lemma {:induction false} ValueFits(digits: string)
    requires AllHex(digits) && |digits| <= 16
    ensures ValueOf(digits) < Pow16(|digits|)
    ensures digits != "" ==>
              ValueOf(digits) == 16 * ValueOf(digits[..|digits| - 1]) + Nibble(digits[|digits| - 1])
  {
    if digits != "" {
      var rest := digits[..|digits| - 1];
      ValueFits(rest);
      Pow16Bounds(|rest|);
    }
  }

  lemma {:induction false} DigitsAreHex(id: nat, n: nat)
    ensures AllHex(Digits(id, n))
  {
    if n > 0 {
      DigitsAreHex(id / 16, n - 1);
      NibbleOfDigit(id % 16);
    }
  }

  /** Reading back what was written. */
  lemma {:induction false} ValueOfDigits(id: nat, n: nat)
    requires n <= 16 && id < Pow16(n)
    ensures AllHex(Digits(id, n)) && ValueOf(Digits(id, n)) == id
  {
    DigitsAreHex(id, n);
    if n > 0 {
      ValueOfDigits(id / 16, n - 1);
      NibbleOfDigit(id % 16);
      var s := Digits(id, n);
      assert s[..n - 1] == Digits(id / 16, n - 1);
      ValueFits(s);
    }
  }

  /** Zero-padded to `n`, lower case. */
  function Padded(digits: string, n: nat): string
    requires |digits| <= n
  {
    seq(n - |digits|, (_: int) => '0') + seq(|digits|, i requires 0 <= i < |digits| => LowerCase(digits[i]))
  }

  /** Writing what was read gives the padded, lower-case form. */
  lemma {:induction false} DigitsOfValue(digits: string, n: nat)
    requires AllHex(digits) && |digits| <= n <= 16
    ensures Digits(ValueOf(digits), n) == Padded(digits, n)
    decreases n
  {
    if digits == "" {
      ZeroDigits(n);
    } else {
      var rest, last := digits[..|digits| - 1], digits[|digits| - 1];
      ValueFits(digits);
      DigitsOfValue(rest, n - 1);
      DigitOfNibble(last);
      DigitsPush(ValueOf(digits), ValueOf(rest), Nibble(last), n - 1);
      PaddedPush(rest, last, n - 1);
      assert digits == rest + [last];
    }
  }

  lemma DigitsPush(id: nat, rest: nat, nibble: nat, n: nat)
    requires id == 16 * rest + nibble && nibble < 16
    ensures Digits(id, n + 1) == Digits(rest, n) + [Digit(nibble)]
  {
    assert id / 16 == rest && id % 16 == nibble;
  }

  lemma PaddedPush(rest: string, last: char, n: nat)
    requires |rest| <= n
    ensures Padded(rest + [last], n + 1) == Padded(rest, n) + [LowerCase(last)]
  {
  }

  lemma {:induction false} ZeroDigits(n: nat)
    ensures Digits(0, n) == Padded("", n)
  {
    if n > 0 {
      ZeroDigits(n - 1);
    }
  }

  lemma IdFits(id: Id)
    ensures id < Pow16(16)
  {
    Pow16Bounds(15);
    Pow16Of15();
  }

  /** Every id survives being written and read. */
  lemma FormatThenParse(id: Id)
    ensures Parsed(FormatId(id)) == Some(id)
  {
    IdFits(id);
    ValueOfDigits(id, 16);
    var s := FormatId(id);
    assert IsHex(s[1]);
  }

  /** Every accepted spelling, short, upper-case or prefixed, is written back as
      its zero-padded lower-case form, which reads as the same id. */
  lemma ParseThenFormat(s: string)
    requires Spells(s)
    ensures FormatId(Parsed(s).value) == Padded(Unprefixed(s), 16)
    ensures Parsed(Padded(Unprefixed(s), 16)) == Parsed(s)
  {
    DigitsOfValue(Unprefixed(s), 16);
    FormatThenParse(Parsed(s).value);
  }

  // --- The spellings and their numbers, written out ---

  /** Every digit with its number. */
  lemma DigitsListed()
    ensures Nibble('0') == 0 && Nibble('1') == 1 && Nibble('2') == 2 && Nibble('3') == 3 && Nibble('4') == 4
    ensures Nibble('5') == 5 && Nibble('6') == 6 && Nibble('7') == 7 && Nibble('8') == 8 && Nibble('9') == 9
    ensures Nibble('a') == 10 && Nibble('b') == 11 && Nibble('c') == 12 && Nibble('d') == 13 && Nibble('e') == 14 && Nibble('f') == 15
    ensures Nibble('A') == 10 && Nibble('B') == 11 && Nibble('C') == 12 && Nibble('D') == 13 && Nibble('E') == 14 && Nibble('F') == 15
    ensures forall n: nat :: n < 16 ==> Digit(n) == "0123456789abcdef"[n]
  {
    forall n: nat | n < 16 ensures Digit(n) == "0123456789abcdef"[n] {
      NibbleOfDigit(n);
    }
  }

  lemma HexListed(c: char)
    ensures IsHex(c) <==> c in "0123456789abcdefABCDEF"
  {
    var all := "0123456789abcdefABCDEF";
    if '0' <= c <= '9' {
      assert all[c as int - '0' as int] == c;
    } else if 'a' <= c <= 'f' {
      assert all[10 + c as int - 'a' as int] == c;
    } else if 'A' <= c <= 'F' {
      assert all[16 + c as int - 'A' as int] == c;
    }
  }

  /** One to sixteen of those digits. */
  ghost predicate IsDigits(d: string) {
    1 <= |d| <= 16 && forall i :: 0 <= i < |d| ==> d[i] in "0123456789abcdefABCDEF"
  }

  lemma DigitsAllHex(d: string)
    ensures IsDigits(d) <==> 1 <= |d| <= 16 && AllHex(d)
  {
    forall i | 0 <= i < |d| ensures IsHex(d[i]) <==> d[i] in "0123456789abcdefABCDEF" {
      HexListed(d[i]);
    }
  }

  /** Each digit counts for its number times 16 to the number of digits after
      it. */
  function Weighted(d: string): nat
    requires AllHex(d)
  {
    if d == "" then 0 else Nibble(d[0]) * Pow16(|d| - 1) + Weighted(d[1..])
  }

  lemma {:induction false} WeightedLast(d: string)
    requires AllHex(d) && d != ""
    ensures Weighted(d) == 16 * Weighted(d[..|d| - 1]) + Nibble(d[|d| - 1])
  {
    var rest := d[..|d| - 1];
    if |d| > 1 {
      WeightedLast(d[1..]);
      assert d[1..][..|d| - 2] == rest[1..];
      assert Pow16(|d| - 1) == 16 * Pow16(|d| - 2);
      TimesSixteen(Nibble(d[0]), Pow16(|d| - 2), Pow16(|d| - 1));
    }
  }

  lemma TimesSixteen(a: nat, p: nat, q: nat)
    requires q == 16 * p
    ensures a * q == 16 * (a * p)
  {
  }

  lemma {:induction false} ValueIsWeighted(d: string)
    requires AllHex(d) && |d| <= 16
    ensures ValueOf(d) == Weighted(d)
  {
    if d != "" {
      ValueIsWeighted(d[..|d| - 1]);
      ValueFits(d);
      WeightedLast(d);
    }
  }

  /** Digits read as their hexadecimal number, alone or after `0x` or `0X`. */
  lemma DigitsRead(d: string)
    requires IsDigits(d)
    ensures AllHex(d) && Parsed(d) == Some(Weighted(d))
    ensures Parsed("0x" + d) == Parsed(d) && Parsed("0X" + d) == Parsed(d)
  {
    DigitsAllHex(d);
    assert |d| > 1 ==> IsHex(d[1]);
    assert ("0x" + d)[2..] == d && ("0X" + d)[2..] == d;
    ValueIsWeighted(d);
  }

  /** And nothing else is read. */
  lemma OnlyDigitsRead(s: string)
    ensures Parsed(s).Some? <==> exists d: string :: IsDigits(d) && (s == d || s == "0x" + d || s == "0X" + d)
  {
    if Parsed(s).Some? {
      var d := Unprefixed(s);
      DigitsAllHex(d);
      assert s == d || s == s[..2] + d;
      assert s == d || s[..2] == "0x" || s[..2] == "0X";
    }
    if d: string :| IsDigits(d) && (s == d || s == "0x" + d || s == "0X" + d) {
      DigitsRead(d);
    }
  }

  // --- Vectors ---

  method CellsToHex(cells: seq<Option<Id>>) returns (out: seq<Option<string>>)
    ensures |out| == |cells|
    ensures forall i :: 0 <= i < |cells| ==>
              out[i] == match cells[i] case None => None case Some(id) => Some(FormatId(id))
  {
    out := [];
    for i := 0 to |cells|
      invariant |out| == i
      invariant forall j :: 0 <= j < i ==>
                  out[j] == match cells[j] case None => None case Some(id) => Some(FormatId(id))
    {
      match cells[i]
      case None => out := out + [None];
      case Some(id) => out := out + [Some(FormatId(id))];
    }
  }

  /** A string's cell: NA for NA and for the sentinel's own id. */
  function CellOf(text: Option<string>): Option<Id>
    requires text.Some? ==> Spells(text.value)
  {
    match text
    case None => None
    case Some(s) => if Parsed(s) == Some(NA_ID) then None else Parsed(s)
  }

  /** What reading gives: cells, or where, counting from 1, the reading stopped. */
  datatype HexCells = Cells(cells: seq<Option<Id>>) | NotHex(position: nat)

  ghost predicate Readable(text: Option<string>) {
    text.Some? ==> Spells(text.value)
  }

  method HexToCells(texts: seq<Option<string>>) returns (out: HexCells)
    ensures out.Cells? <==> forall i :: 0 <= i < |texts| ==> Readable(texts[i])
    ensures out.Cells? ==>
              |out.cells| == |texts| && forall i :: 0 <= i < |texts| ==> out.cells[i] == CellOf(texts[i])
    ensures out.NotHex? ==>
              && 1 <= out.position <= |texts| && !Readable(texts[out.position - 1])
              && forall i :: 0 <= i < out.position - 1 ==> Readable(texts[i])
  {
    var values: seq<Option<Id>> := [];
    for i := 0 to |texts|
      invariant |values| == i
      invariant forall j :: 0 <= j < i ==> Readable(texts[j]) && values[j] == CellOf(texts[j])
    {
      match texts[i]
      case None => values := values + [None];
      case Some(s) =>
        var id := ParseHexId(s);
        match id {
          case Some(v) => values := values + [if v != NA_ID then Some(v) else None];
          case None => return NotHex(i + 1);
        }
    }
    return Cells(values);
  }

  /** Writing cells as hex and reading them back gives the same cells, unless
      one holds the sentinel's own id. */
  method HexRoundTrip(cells: seq<Option<Id>>) returns (out: HexCells)
    ensures out.Cells? && |out.cells| == |cells|
    ensures out.cells == cells <==> forall i :: 0 <= i < |cells| ==> cells[i] != Some(NA_ID)
  {
    var texts := CellsToHex(cells);
    forall i | 0 <= i < |cells|
      ensures Readable(texts[i])
      ensures CellOf(texts[i]) == if cells[i] == Some(NA_ID) then None else cells[i]
    {
      if cells[i].Some? {
        FormatThenParse(cells[i].value);
      }
    }
    out := HexToCells(texts);
    assert out.cells == cells ==> forall i :: 0 <= i < |cells| ==> out.cells[i] == cells[i];
  }

  // --- Ids as numbers and as words ---

  /** The number a 64-bit word holds. */
  function IdOf(word: bv64): Id {
    word as int
  }

  /** The sentinel here and in the byte layout are one id. */
  lemma SentinelIsOneId(word: bv64)
    ensures IdOf(word) == NA_ID <==> word == CellBytes.NA_SENTINEL
  {
    assert CellBytes.NA_SENTINEL as int == NA_ID;
    assert (word as int) as bv64 == word;
  }
}
