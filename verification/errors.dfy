/** The failures the codec reports. The source throws untyped exceptions
    (`SystemException`, `FormatException`, `ArgumentException` and the
    runtime's index errors); each throw site maps to one of these. */
module Errors {
  import opened Chars

  datatype Error =
    | UnexpectedEndOfInput          // a read or peek past the last character, or no opening bracket before the end
    | UnexpectedToken(at: nat)      // a character the parser's current state does not allow
    | UnterminatedString            // end of input before the closing quote of a string
    | InvalidEscape(at: nat)        // an unknown escape letter, or a \u escape without four valid hex characters
    | InvalidLiteral(text: Text)    // a bare value that no literal or number parser accepts
    | DuplicateKey(key: Text)       // `Dictionary.Add` of a key already present
    | NotADecimal(text: Text)       // `NormalizeDecimal` of text `decimal.TryParse` refuses
}
