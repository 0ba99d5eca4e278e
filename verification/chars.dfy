/** Character classes used by the row pattern of src/main.rs. */
module Chars {

  predicate IsAsciiDigit(c: char) {
    '0' <= c <= '9'
  }

  /** Decimal digits outside ASCII that the pattern's `\d` also accepts.
      Only a few blocks of Unicode category Nd are listed: Arabic-Indic,
      Extended Arabic-Indic, Devanagari and Fullwidth digits. */
  predicate IsOtherDigit(c: char) {
    || '\U{0660}' <= c <= '\U{0669}'
    || '\U{06F0}' <= c <= '\U{06F9}'
    || '\U{0966}' <= c <= '\U{096F}'
    || '\U{FF10}' <= c <= '\U{FF19}'
  }

  /** The pattern's `\d`. */
  predicate IsDigit(c: char) {
    IsAsciiDigit(c) || IsOtherDigit(c)
  }

  predicate IsAsciiLetter(c: char) {
    ('a' <= c <= 'z') || ('A' <= c <= 'Z')
  }

  /** The pattern's `\w`: letters, digits and the underscore. */
  predicate IsWord(c: char) {
    IsAsciiLetter(c) || IsDigit(c) || c == '_'
  }

  /** The four character classes a captured field may be drawn from. */
  datatype FieldClass =
    | NameClass    // [\w-]     host name and up/down marker
    | UptimeClass  // [\d\+:,]  uptime
    | DigitClass   // \d        user count
    | LoadClass    // [\d\.]    load

  predicate InClass(c: char, k: FieldClass) {
    match k
    case NameClass => IsWord(c) || c == '-'
    case UptimeClass => IsDigit(c) || c == '+' || c == ':' || c == ','
    case DigitClass => IsDigit(c)
    case LoadClass => IsDigit(c) || c == '.'
  }

  /** The value of an ASCII decimal digit. */
  function DigitValue(c: char): (d: nat)
    requires IsAsciiDigit(c)
    ensures d < 10
  {
    c as int - '0' as int
  }

  /** The ASCII digit for a value below ten; inverse of `DigitValue`. */
  function DigitChar(d: nat): (c: char)
    requires d < 10
    ensures IsAsciiDigit(c) && DigitValue(c) == d
  {
    ('0' as int + d) as char
  }
}
