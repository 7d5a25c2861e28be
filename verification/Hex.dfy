// Hexadecimal texts of numbers, as the Go SDK hands them to its encoding library.
module Hex {
  import opened Prelude

  // A *big.Int: nil, or a number.
  type BigInt = Option<int>

  function Digit(d: nat): char
    requires d < 16
  {
    if d < 10 then '0' + d as char else 'a' + (d - 10) as char
  }

  function Digits(n: nat): (digits: string)
    ensures digits != []
  {
    if n < 16 then [Digit(n)] else Digits(n / 16) + [Digit(n % 16)]
  }

  /** `"0x" + v.Text(16)`, where the text of nil is `<nil>` and the sign comes after the prefix. */
  function HexText(v: BigInt): string {
    "0x" + match v
           case None => "<nil>"
           case Some(n) => if n < 0 then "-" + Digits(-n) else Digits(n)
  }

  function DigitValue(c: char): Option<nat> {
    if '0' <= c <= '9' then Some(c as nat - '0' as nat)
    else if 'a' <= c <= 'f' then Some(c as nat - 'a' as nat + 10)
    else if 'A' <= c <= 'F' then Some(c as nat - 'A' as nat + 10)
    else None
  }

  function ReadDigits(s: string): Option<nat>
    decreases |s|
  {
    if s == [] then None else
      var last := DigitValue(s[|s| - 1]);
      if |s| == 1 || last == None then last else
        match ReadDigits(s[..|s| - 1])
        case None => None
        case Some(n) => Some(16 * n + last.value)
  }

  /** What a reader of prefixed hexadecimal numbers makes of a text. */
  function ReadHex(s: string): Option<nat> {
    if |s| >= 2 && s[..2] == "0x" then ReadDigits(s[2..]) else None
  }

  lemma DigitReads(d: nat)
    requires d < 16
    ensures DigitValue(Digit(d)) == Some(d)
  {
  }

  /** Digits after an unreadable or absent beginning. */
  lemma {:induction false} DigitsRead(before: string, n: nat)
    requires before == "" || before == "-"
    ensures ReadDigits(before + Digits(n)) == if before == "" then Some(n) else None
    decreases n
  {
    DigitReads(n % 16);
    var s := before + Digits(n);
    if n < 16 {
      assert s[..|s| - 1] == before;
      assert ReadDigits("-") == None;
    } else {
      DigitsRead(before, n / 16);
      assert s[..|s| - 1] == before + Digits(n / 16);
    }
  }

  /** The text of a number is read back; that of nil or of a negative number is no number. */
  lemma HexTextReads(v: BigInt)
    ensures ReadHex(HexText(v)) == if v.Some? && v.value >= 0 then v else None
  {
    var s := HexText(v);
    match v {
      case None =>
        assert s[2..] == "<nil>";
      case Some(n) =>
        if n < 0 {
          assert s[2..] == "-" + Digits(-n);
          DigitsRead("-", -n);
        } else {
          assert s[2..] == "" + Digits(n);
          DigitsRead("", n);
        }
    }
  }

  /** The digits are those of base 16, lower case. */
  lemma DigitIs(d: nat)
    requires d < 16
    ensures Digit(d) == "0123456789abcdef"[d]
  {
  }

  /** Counted from the last, the digits are those of the number, and the first is not zero unless it is the only one. */
  lemma {:induction false} DigitsAre(n: nat)
    ensures Digits(n)[|Digits(n)| - 1] == Digit(n % 16)
    ensures n >= 16 ==> Digits(n)[..|Digits(n)| - 1] == Digits(n / 16)
    ensures n < 16 ==> |Digits(n)| == 1
    ensures n > 0 ==> Digits(n)[0] != '0'
    decreases n
  {
    if n >= 16 {
      DigitsAre(n / 16);
    }
  }
}
