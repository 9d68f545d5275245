/** The request-body validator of the school service (app.js:42-56): a pure
    check of four loosely typed JSON values, reporting the first failing field
    in the fixed order name, address, latitude, longitude. */
module Validator {

  datatype Option<T> = None | Some(value: T)

  /** A JavaScript number: an ordinary value, one of the two infinities, or NaN. */
  datatype Number = NaN | Finite(value: real) | Infinite(negative: bool)

  /** What a field of the parsed JSON body can be, as far as the validator can
      tell: a string, a number, or anything else (missing, null, a boolean, an
      object or an array). */
  datatype JsVal = JsString(text: string) | JsNumber(num: Number) | JsOther

  const NameMessage: string := "Name must be a non-empty string."
  const AddressMessage: string := "Address must be a non-empty string."
  const LatitudeMessage: string := "Latitude must be a valid number."
  const LongitudeMessage: string := "Longitude must be a valid number."

  /** The code points String.prototype.trim removes: the ECMAScript
      WhiteSpace (tab, vertical tab, form feed, space, no-break space, byte
      order mark and the Unicode space separators) and LineTerminator (line
      feed, carriage return, line and paragraph separators) characters. */
  const JsWhitespace: set<int> := {
    0x09, 0x0A, 0x0B, 0x0C, 0x0D, 0x20, 0xA0, 0x1680,
    0x2000, 0x2001, 0x2002, 0x2003, 0x2004, 0x2005, 0x2006, 0x2007, 0x2008, 0x2009, 0x200A,
    0x2028, 0x2029, 0x202F, 0x205F, 0x3000, 0xFEFF
  }

  predicate IsJsWhitespace(c: char)
  {
    c as int in JsWhitespace
  }

  /** `s.trim() === ''`, stated on the characters of s (see TrimEmptyIff):
      trim would keep none of them. */
  predicate IsBlank(s: string)
  {
    forall i :: 0 <= i < |s| ==> IsJsWhitespace(s[i])
  }

  /** The number of whitespace characters s starts with. */
  function LeadingWhitespace(s: string): (n: nat)
    ensures n <= |s|
    ensures forall i :: 0 <= i < n ==> IsJsWhitespace(s[i])
    ensures n < |s| ==> !IsJsWhitespace(s[n])
  {
    if |s| > 0 && IsJsWhitespace(s[0]) then
      var n := LeadingWhitespace(s[1..]);
      assert forall i :: 1 <= i <= n ==> s[i] == s[1..][i - 1];
      n + 1
    else 0
  }

  /** The number of whitespace characters s ends with. */
  function TrailingWhitespace(s: string): (n: nat)
    ensures n <= |s|
    ensures forall i :: |s| - n <= i < |s| ==> IsJsWhitespace(s[i])
    ensures n < |s| ==> !IsJsWhitespace(s[|s| - n - 1])
  {
    if |s| > 0 && IsJsWhitespace(s[|s| - 1]) then
      var n := TrailingWhitespace(s[..|s| - 1]);
      assert forall i :: 0 <= i < |s| - 1 ==> s[i] == s[..|s| - 1][i];
      n + 1
    else 0
  }

  /** Removes leading whitespace: the result is a suffix of s, only whitespace
      was dropped, and the result does not start with whitespace. */
  function TrimStart(s: string): (r: string)
    ensures |r| <= |s| && r == s[|s| - |r|..]
    ensures forall i :: 0 <= i < |s| - |r| ==> IsJsWhitespace(s[i])
    ensures r == [] || !IsJsWhitespace(r[0])
  {
    s[LeadingWhitespace(s)..]
  }

  /** Removes trailing whitespace: the result is a prefix of s, only
      whitespace was dropped, and the result does not end with whitespace. */
  function TrimEnd(s: string): (r: string)
    ensures |r| <= |s| && r == s[..|r|]
    ensures forall i :: |r| <= i < |s| ==> IsJsWhitespace(s[i])
    ensures r == [] || !IsJsWhitespace(r[|r| - 1])
  {
    s[..|s| - TrailingWhitespace(s)]
  }

  /** String.prototype.trim. */
  function Trim(s: string): (r: string)
    ensures r == [] || (!IsJsWhitespace(r[0]) && !IsJsWhitespace(r[|r| - 1]))
  {
    TrimEnd(TrimStart(s))
  }

  /** `s.trim() === ''` holds exactly when every character of s is whitespace. */
  lemma TrimEmptyIff(s: string)
    ensures Trim(s) == [] <==> IsBlank(s)
  {
  }

  /** A text field the validator accepts. */
  predicate IsNonBlankString(v: JsVal)
  {
    v.JsString? && !IsBlank(v.text)
  }

  /** A numeric field the validator accepts (an infinity is accepted). */
  predicate IsValidNumber(v: JsVal)
  {
    v.JsNumber? && !v.num.NaN?
  }

  /** validateInput (app.js:42-56). None stands for the JavaScript `null`
      that means "valid". `typeof v !== 'string' || v.trim() === ''` is
      `!v.JsString? || IsBlank(v.text)`; `typeof v !== 'number' || isNaN(v)`
      is `!v.JsNumber? || v.num.NaN?`. */
  function ValidateInput(name: JsVal, address: JsVal, latitude: JsVal, longitude: JsVal): (r: Option<string>)
    ensures r == None <==>
      IsNonBlankString(name) && IsNonBlankString(address) && IsValidNumber(latitude) && IsValidNumber(longitude)
    ensures !IsNonBlankString(name) ==> r == Some(NameMessage)
    ensures IsNonBlankString(name) && !IsNonBlankString(address) ==> r == Some(AddressMessage)
    ensures IsNonBlankString(name) && IsNonBlankString(address) && !IsValidNumber(latitude)
      ==> r == Some(LatitudeMessage)
    ensures (IsNonBlankString(name) && IsNonBlankString(address) && IsValidNumber(latitude) &&
             !IsValidNumber(longitude)) ==> r == Some(LongitudeMessage)
    ensures r.Some? ==> r.value != []
  {
    if !name.JsString? || IsBlank(name.text) then Some(NameMessage)
    else if !address.JsString? || IsBlank(address.text) then Some(AddressMessage)
    else if !latitude.JsNumber? || latitude.num.NaN? then Some(LatitudeMessage)
    else if !longitude.JsNumber? || longitude.num.NaN? then Some(LongitudeMessage)
    else None
  }

  /** An empty name is reported even when a later field is also wrong, and a
      non-number latitude is reported once name and address pass. */
  lemma ValidateInputExamples(lon: Number)
    ensures ValidateInput(JsString(""), JsString("addr"), JsNumber(Finite(1.0)), JsNumber(Finite(2.0)))
      == Some(NameMessage)
    ensures ValidateInput(JsString(" \t"), JsString("addr"), JsString("x"), JsNumber(lon))
      == Some(NameMessage)
    ensures ValidateInput(JsString("n"), JsString("a"), JsString("x"), JsNumber(Finite(2.0)))
      == Some(LatitudeMessage)
    ensures ValidateInput(JsString("n"), JsString("a"), JsNumber(NaN), JsOther)
      == Some(LatitudeMessage)
  {
    assert !IsJsWhitespace("n"[0]);
    assert !IsJsWhitespace("a"[0]);
    assert !IsJsWhitespace("addr"[0]);
  }
}
