/** The two tables of the base64 codec. */
module Base64Tables {

  const PAD := '='
  const INVALID: nat := 255

  /** base64en */
  function EncodeChar(x: nat): char
    requires x < 64
  {
    match x {
      case 0 => 'A'
      case 1 => 'B'
      case 2 => 'C'
      case 3 => 'D'
      case 4 => 'E'
      case 5 => 'F'
      case 6 => 'G'
      case 7 => 'H'
      case 8 => 'I'
      case 9 => 'J'
      case 10 => 'K'
      case 11 => 'L'
      case 12 => 'M'
      case 13 => 'N'
      case 14 => 'O'
      case 15 => 'P'
      case 16 => 'Q'
      case 17 => 'R'
      case 18 => 'S'
      case 19 => 'T'
      case 20 => 'U'
      case 21 => 'V'
      case 22 => 'W'
      case 23 => 'X'
      case 24 => 'Y'
      case 25 => 'Z'
      case 26 => 'a'
      case 27 => 'b'
      case 28 => 'c'
      case 29 => 'd'
      case 30 => 'e'
      case 31 => 'f'
      case 32 => 'g'
      case 33 => 'h'
      case 34 => 'i'
      case 35 => 'j'
      case 36 => 'k'
      case 37 => 'l'
      case 38 => 'm'
      case 39 => 'n'
      case 40 => 'o'
      case 41 => 'p'
      case 42 => 'q'
      case 43 => 'r'
      case 44 => 's'
      case 45 => 't'
      case 46 => 'u'
      case 47 => 'v'
      case 48 => 'w'
      case 49 => 'x'
      case 50 => 'y'
      case 51 => 'z'
      case 52 => '0'
      case 53 => '1'
      case 54 => '2'
      case 55 => '3'
      case 56 => '4'
      case 57 => '5'
      case 58 => '6'
      case 59 => '7'
      case 60 => '8'
      case 61 => '9'
      case 62 => '+'
      case _ => '/'
    }
  }

  /** base64de */
  function DecodeChar(c: char): (x: nat)
    ensures x < 64 || x == INVALID
  {
    match c {
      case '+' => 62
      case '/' => 63
      case '0' => 52
      case '1' => 53
      case '2' => 54
      case '3' => 55
      case '4' => 56
      case '5' => 57
      case '6' => 58
      case '7' => 59
      case '8' => 60
      case '9' => 61
      case 'A' => 0
      case 'B' => 1
      case 'C' => 2
      case 'D' => 3
      case 'E' => 4
      case 'F' => 5
      case 'G' => 6
      case 'H' => 7
      case 'I' => 8
      case 'J' => 9
      case 'K' => 10
      case 'L' => 11
      case 'M' => 12
      case 'N' => 13
      case 'O' => 14
      case 'P' => 15
      case 'Q' => 16
      case 'R' => 17
      case 'S' => 18
      case 'T' => 19
      case 'U' => 20
      case 'V' => 21
      case 'W' => 22
      case 'X' => 23
      case 'Y' => 24
      case 'Z' => 25
      case 'a' => 26
      case 'b' => 27
      case 'c' => 28
      case 'd' => 29
      case 'e' => 30
      case 'f' => 31
      case 'g' => 32
      case 'h' => 33
      case 'i' => 34
      case 'j' => 35
      case 'k' => 36
      case 'l' => 37
      case 'm' => 38
      case 'n' => 39
      case 'o' => 40
      case 'p' => 41
      case 'q' => 42
      case 'r' => 43
      case 's' => 44
      case 't' => 45
      case 'u' => 46
      case 'v' => 47
      case 'w' => 48
      case 'x' => 49
      case 'y' => 50
      case 'z' => 51
      case _ => INVALID
    }
  }

  predicate InAlphabet(c: char) {
    DecodeChar(c) != INVALID
  }

  lemma CodesFrom0(x: nat)
    requires 0 <= x < 16
    ensures DecodeChar(EncodeChar(x)) == x
  {
  }

  lemma CodesFrom16(x: nat)
    requires 16 <= x < 32
    ensures DecodeChar(EncodeChar(x)) == x
  {
  }

  lemma CodesFrom32(x: nat)
    requires 32 <= x < 40
    ensures DecodeChar(EncodeChar(x)) == x
  {
  }

  lemma CodesFrom40(x: nat)
    requires 40 <= x < 48
    ensures DecodeChar(EncodeChar(x)) == x
  {
  }

  lemma CodesFrom48(x: nat)
    requires 48 <= x < 56
    ensures DecodeChar(EncodeChar(x)) == x
  {
  }

  lemma CodesFrom56(x: nat)
    requires 56 <= x < 64
    ensures DecodeChar(EncodeChar(x)) == x
  {
  }

  /** The encode table is the alphabet of the RFC, and the decode table undoes it. */
  lemma DecodeEncodeChar(x: nat)
    requires x < 64
    ensures EncodeChar(x) == RfcChar(x)
    ensures DecodeChar(EncodeChar(x)) == x && EncodeChar(x) != PAD
  {
    hide DecodeChar, EncodeChar, RfcChar;
    EncodeCharIsRfc(x);
    if x < 16 {
      CodesFrom0(x);
    } else if x < 32 {
      CodesFrom16(x);
    } else if x < 40 {
      CodesFrom32(x);
    } else if x < 48 {
      CodesFrom40(x);
    } else if x < 56 {
      CodesFrom48(x);
    } else {
      CodesFrom56(x);
    }
    PadNotInAlphabet();
  }

  lemma PadNotInAlphabet()
    ensures !InAlphabet(PAD)
  {
  }

  /** The encode table undoes the decode table on the alphabet, which gives each character the code
      it has in the RFC. */
  lemma EncodeDecodeChar(c: char)
    requires InAlphabet(c)
    ensures DecodeChar(c) < 64 && EncodeChar(DecodeChar(c)) == RfcChar(DecodeChar(c)) == c
  {
    hide DecodeChar, EncodeChar, RfcChar;
    EncodeCharIsRfc(DecodeChar(c));
    if c < '0' {
      SignChars(c);
    } else if c < '5' {
      LowDigitChars(c);
    } else if c <= '9' {
      DigitChars(c);
    } else if c <= 'Z' {
      UpperChars(c);
    } else {
      LowerChars(c);
    }
  }

  lemma SignChars(c: char)
    requires InAlphabet(c) && c < '0'
    ensures EncodeChar(DecodeChar(c)) == c
  {
  }

  lemma LowDigitChars(c: char)
    requires InAlphabet(c) && '0' <= c < '5'
    ensures EncodeChar(DecodeChar(c)) == c
  {
  }

  lemma DigitChars(c: char)
    requires InAlphabet(c) && '5' <= c <= '9'
    ensures EncodeChar(DecodeChar(c)) == c
  {
  }

  lemma UpperChars(c: char)
    requires InAlphabet(c) && '9' < c <= 'Z'
    ensures EncodeChar(DecodeChar(c)) == c
  {
  }

  lemma LowerChars(c: char)
    requires InAlphabet(c) && 'Z' < c
    ensures EncodeChar(DecodeChar(c)) == c
  {
  }

  // ----- Table 1 of RFC 4648

  /** The alphabet of section 4: upper case, lower case, digits, plus and slash. */
  function RfcChar(x: nat): char
    requires x < 64
  {
    if x < 26 then 'A' + x as char
    else if x < 52 then 'a' + (x - 26) as char
    else if x < 62 then '0' + (x - 52) as char
    else if x == 62 then '+' else '/'
  }

  lemma RfcFrom0(x: nat)
    requires 0 <= x < 16
    ensures EncodeChar(x) == RfcChar(x)
  {
  }

  lemma RfcFrom16(x: nat)
    requires 16 <= x < 32
    ensures EncodeChar(x) == RfcChar(x)
  {
  }

  lemma RfcFrom32(x: nat)
    requires 32 <= x < 48
    ensures EncodeChar(x) == RfcChar(x)
  {
  }

  lemma RfcFrom48(x: nat)
    requires 48 <= x < 64
    ensures EncodeChar(x) == RfcChar(x)
  {
  }

  /** The encode table is the alphabet of the RFC, code by code. */
  lemma EncodeCharIsRfc(x: nat)
    requires x < 64
    ensures EncodeChar(x) == RfcChar(x)
  {
    hide EncodeChar, RfcChar;
    if x < 16 {
      RfcFrom0(x);
    } else if x < 32 {
      RfcFrom16(x);
    } else if x < 48 {
      RfcFrom32(x);
    } else {
      RfcFrom48(x);
    }
  }

  /** The decode table accepts exactly letters, digits, plus and slash. */
  lemma AlphabetIsRfc(c: char)
    ensures InAlphabet(c) <==> 'A' <= c <= 'Z' || 'a' <= c <= 'z' || '0' <= c <= '9' || c == '+' || c == '/'
  {
  }

  /** Everything outside '+'..'z' is outside the alphabet, so the range test before the look-up
      rejects nothing the table would accept. */
  lemma AlphabetRange(c: char)
    ensures InAlphabet(c) ==> '+' <= c <= 'z'
  {
  }
}
