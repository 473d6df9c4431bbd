/** The C string behind a `std::string`. */
module CString {
  type Char = c: char | c as int < 256 witness 'A'
  type Text = seq<Char>

  const TERMINATOR: Char := 0 as char

  /** `s[i]`: the last index that may be read is the one of the terminator. */
  function At(s: Text, i: nat): Char
    requires i <= |s|
  {
    if i < |s| then s[i] else TERMINATOR
  }
}
