/** The C character and number routines that the NMEA code relies on.  A cell of
    a buffer is a char below 256; a C string is the text before the first NUL. */
module Text {
  import opened Seqs

  const NUL := '\0'
  const CR := '\r'
  const LF := '\n'

  function CStr(memory: string): string {
    memory[..Index(memory, NUL)]
  }

  /** Reading the cell i of a string; past its end lies its terminator. */
  function CharAt(s: string, i: nat): char {
    if i < |s| then s[i] else NUL
  }

  /** Some characters have become NUL, and nothing else has changed. */
  predicate OnlyNuls(w: string, s: string) {
    |w| == |s| && forall i :: 0 <= i < |s| ==> w[i] == s[i] || w[i] == NUL
  }

  /** g_ascii_digit_value */
  function DigitValue(c: char): (d: int)
    ensures -1 <= d <= 9
  {
    if '0' <= c <= '9' then c as int - '0' as int else -1
  }

  function HexValue(c: char): (d: int)
    ensures -1 <= d <= 15
  {
    if '0' <= c <= '9' then c as int - '0' as int
    else if 'A' <= c <= 'F' then c as int - 'A' as int + 10
    else if 'a' <= c <= 'f' then c as int - 'a' as int + 10
    else -1
  }

  predicate IsSpace(c: char) {
    c == ' ' || '\t' <= c <= '\r'
  }

  function SkipSpace(s: string): string {
    if s != "" && IsSpace(s[0]) then SkipSpace(s[1..]) else s
  }

  function Hexadecimal(s: string, sum: int): int {
    if s != "" && HexValue(s[0]) != -1 then Hexadecimal(s[1..], 16 * sum + HexValue(s[0])) else sum
  }

  predicate Negative(s: string) {
    s != "" && s[0] == '-'
  }

  function Unsigned(s: string): string {
    if s != "" && (s[0] == '-' || s[0] == '+') then s[1..] else s
  }

  /** strtol with base 16, on values that fit a long. */
  function StrtolHex(s: string): int {
    var t := SkipSpace(s);
    var u := Unsigned(t);
    var digits := if |u| > 2 && u[0] == '0' && (u[1] == 'x' || u[1] == 'X') && HexValue(u[2]) != -1
                  then u[2..] else u;
    var n := Hexadecimal(digits, 0);
    if Negative(t) then -n else n
  }
}
