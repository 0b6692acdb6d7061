/** `ifEmpty`: fall back to a substitute when a value is empty for its type. */
module Utils {
  import opened Numbers
  import opened JsValues
  import opened Guards

  /** The code points `String.prototype.trim` strips: the ECMAScript
      WhiteSpace and LineTerminator characters. */
  predicate IsWhitespace(c: char) {
    c == '\t' || c == '\n' || c == '\U{B}' || c == '\U{C}' || c == '\r' || c == ' '
    || c == '\U{A0}' || c == '\U{1680}' || ('\U{2000}' <= c <= '\U{200A}')
    || c == '\U{2028}' || c == '\U{2029}' || c == '\U{202F}' || c == '\U{205F}'
    || c == '\U{3000}' || c == '\U{FEFF}'
  }

  predicate AllWhitespace(s: string) {
    forall i :: 0 <= i < |s| ==> IsWhitespace(s[i])
  }

  /** How many whitespace characters `s` starts with. */
  function LeadingBlanks(s: string): (n: nat)
    ensures n <= |s|
    ensures forall i :: 0 <= i < n ==> IsWhitespace(s[i])
    ensures n < |s| ==> !IsWhitespace(s[n])
  {
    if |s| > 0 && IsWhitespace(s[0]) then 1 + LeadingBlanks(s[1..]) else 0
  }

  /** How many whitespace characters `s` ends with. */
  function TrailingBlanks(s: string): (n: nat)
    ensures n <= |s|
    ensures forall i :: |s| - n <= i < |s| ==> IsWhitespace(s[i])
    ensures n < |s| ==> !IsWhitespace(s[|s| - 1 - n])
  {
    if |s| > 0 && IsWhitespace(s[|s| - 1]) then 1 + TrailingBlanks(s[..|s| - 1]) else 0
  }

  /** `String.prototype.trim`: the slice of `s` left once whitespace is
      removed from both ends. */
  function Trim(s: string): (r: string)
    ensures exists a, b :: 0 <= a <= b <= |s| && r == s[a..b]
                         && AllWhitespace(s[..a]) && AllWhitespace(s[b..])
    ensures |r| > 0 ==> !IsWhitespace(r[0]) && !IsWhitespace(r[|r| - 1])
  {
    var a := LeadingBlanks(s);
    var t := s[a..];
    var b := a + |t| - TrailingBlanks(t);
    assert t[..b - a] == s[a..b];
    assert forall i :: 0 <= i < |s| - b ==> s[b..][i] == t[b - a + i];
    t[..b - a]
  }

  /** A string trims to nothing exactly when it is all whitespace. */
  lemma TrimBlank(s: string)
    ensures Trim(s) == "" <==> AllWhitespace(s)
  {
    var a := LeadingBlanks(s);
    var t := s[a..];
    var n := TrailingBlanks(t);
    assert Trim(s) == t[..|t| - n];
    assert forall i :: a <= i < |s| ==> s[i] == t[i - a];
  }

  /** What `ifEmpty` treats as empty: an array with no items, `NaN`, an
      object with no keys, a blank or whitespace-only string, `null` and
      `undefined`. Everything else, `false` and 0 included, is not. */
  predicate IsEmpty(v: JsValue) {
    match v
    case Arr(items) => |items| == 0
    case Num(n) => n.NaN?
    case Obj(keys, _) => keys == {}
    case Str(s) => AllWhitespace(s)
    case Null => true
    case Undefined => true
    case _ => false
  }

  /** `ifEmpty`: arrays by length, numbers by `Number.isNaN`, other objects
      by `Object.keys`, strings by `trim`, and the rest through `??`. */
  function IfEmpty(value: JsValue, substitute: JsValue): (r: JsValue)
    ensures r == value || r == substitute
    ensures IsEmpty(value) ==> r == substitute
    ensures !IsEmpty(value) ==> r == value
  {
    if IsArray(value) then
      if |value.items| != 0 then value else substitute
    else if TypeOf(value) == "number" then
      if value.n.NaN? then substitute else value
    else if IsObject(value) then
      if |ObjectKeys(value)| != 0 then value else substitute
    else if TypeOf(value) == "string" then
      TrimBlank(value.s);
      if Trim(value.s) == "" then substitute else value
    else if value.Null? || value.Undefined? then substitute
    else value
  }

  /** The documented cases, one per type. */
  lemma IfEmptyExamples()
    ensures IfEmpty(Arr([]), Arr([Str("foo")])) == Arr([Str("foo")])
    ensures IfEmpty(Arr([Str("foo")]), Arr([])) == Arr([Str("foo")])
    ensures IfEmpty(Num(NaN), Num(Finite(0.0))) == Num(Finite(0.0))
    ensures IfEmpty(Num(Finite(0.0)), Num(NaN)) == Num(Finite(0.0))
    ensures IfEmpty(Obj({}, {}), Obj({"foo"}, {})) == Obj({"foo"}, {})
    ensures IfEmpty(Obj({"foo"}, {}), Obj({}, {})) == Obj({"foo"}, {})
    ensures IfEmpty(Str("  "), Str("foo")) == Str("foo")
    ensures IfEmpty(Str("foo"), Str("  ")) == Str("foo")
    ensures IfEmpty(Bool(false), Bool(true)) == Bool(false)
    ensures IfEmpty(Null, Str("empty")) == Str("empty")
    ensures IfEmpty(Undefined, Str("empty")) == Str("empty")
  {
    assert "foo"[0] == 'f';
  }
}
