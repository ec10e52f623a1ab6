/** Text and JSON inputs shared by the bank and the item services. */
module Text {

  /** A JSON value given as provenance or state: an object with these fields, or something else. */
  datatype Json = Object(fields: map<string, string>) | NotAnObject

  /** Unicode white space, as the program's `trim` removes it. */
  predicate IsWhiteSpace(c: char) {
    ('\t' <= c <= '\r')
    || c in {' ', '\U{85}', '\U{A0}', '\U{1680}', '\U{2028}', '\U{2029}', '\U{202F}', '\U{205F}', '\U{3000}'}
    || '\U{2000}' <= c <= '\U{200A}'
  }

  predicate Blank(s: string) {
    forall i :: 0 <= i < |s| ==> IsWhiteSpace(s[i])
  }

  /** Length in UTF-8 bytes. */
  function Utf8Length(s: string): nat {
    if s == [] then 0
    else
      (if s[0] < '\U{80}' then 1 else if s[0] < '\U{800}' then 2 else if s[0] < '\U{10000}' then 3 else 4)
      + Utf8Length(s[1..])
  }
}
