/** `JSON.parse` and the part of `JSON.stringify` that deep links use (RFC 8259). Texts are sequences of 16-bit
    units, as JavaScript keeps them. */
module JsonText {
  import opened Text

  predicate IsAscii(c: char) {
    c as int < 128
  }

  /** The units of a text: one for a character below 0x10000, a surrogate pair for one above. */
  function Units(s: string): seq<int> {
    if s == "" then [] else UnitsOf(s[0]) + Units(s[1..])
  }

  function UnitsOf(c: char): seq<int> {
    var n := c as int;
    if n < 0x10000 then [n] else [0xD800 + (n - 0x10000) / 0x400, 0xDC00 + (n - 0x10000) % 0x400]
  }

  /** A parsed value. A number is its decimal digits as a whole number and the power of ten they are scaled by;
      its sign, and the elements of an array, play no part in what follows. */
  datatype JValue =
    | JNull | JBool(b: bool) | JNumber(digits: nat, scale: int) | JString(units: seq<int>)
    | JArray | JObject(members: map<seq<int>, JValue>)

  function Pow(b: nat, e: nat): nat {
    if e == 0 then 1 else b * Pow(b, e - 1)
  }

  lemma {:induction false} PowAdds(b: nat, i: nat, j: nat)
    ensures Pow(b, 0) == 1 && Pow(b, 1) == b && Pow(b, i + j) == Pow(b, i) * Pow(b, j)
  {
    if i > 0 {
      PowAdds(b, i - 1, j);
      assert Pow(b, i + j) == b * (Pow(b, i - 1) * Pow(b, j)) == (b * Pow(b, i - 1)) * Pow(b, j);
    }
  }

  /** `digits * 10 ** scale` becomes zero as a double: it is at most half the least positive one, 2 ** -1074. */
  predicate IsZero(digits: nat, scale: int) {
    digits == 0 || (scale < 0 && digits * Pow(2, 1075) <= Pow(10, -scale))
  }

  predicate Falsy(v: JValue) {
    match v
    case JNull => true
    case JBool(b) => !b
    case JNumber(digits, scale) => IsZero(digits, scale)
    case JString(units) => units == []
    case JArray => false
    case JObject(_) => false
  }

  // ---- printing ----

  function HexDigit(n: int): char
    requires 0 <= n < 16
  {
    if n < 10 then (n + 48) as char else (n + 87) as char
  }

  /** One character inside a JSON string, as `JSON.stringify` writes it (section 7). */
  function Escaped(c: char): string {
    if c == '"' then "\\\"" else if c == '\\' then "\\\\"
    else if c == '\U{8}' then "\\b" else if c == '\t' then "\\t" else if c == '\n' then "\\n"
    else if c == '\U{c}' then "\\f" else if c == '\r' then "\\r"
    else if c < ' ' then "\\u00" + [HexDigit(c as int / 16), HexDigit(c as int % 16)]
    else [c]
  }

  function EscapedAll(s: string): string {
    if s == "" then "" else Escaped(s[0]) + EscapedAll(s[1..])
  }

  function Stringify(v: Option<string>): string {
    if v.None? then "null" else "\"" + EscapedAll(v.value) + "\""
  }

  // ---- parsing ----

  function HexValue(c: char): Option<int> {
    if '0' <= c <= '9' then Some(c as int - 48)
    else if 'a' <= c <= 'f' then Some(c as int - 87)
    else if 'A' <= c <= 'F' then Some(c as int - 55)
    else None
  }

  /** The character of a two-character escape; `None` when there is no such escape. */
  function SimpleEscape(c: char): Option<char> {
    if c == '"' || c == '\\' || c == '/' then Some(c)
    else if c == 'b' then Some('\U{8}') else if c == 'f' then Some('\U{c}')
    else if c == 'n' then Some('\n') else if c == 'r' then Some('\r') else if c == 't' then Some('\t')
    else None
  }

  /** The unit of a `\u` escape's four digits. */
  function HexEscape(s: string): Option<int> {
    if |s| < 4 then None
    else
      match (HexValue(s[0]), HexValue(s[1]), HexValue(s[2]), HexValue(s[3]))
      case (Some(a), Some(b), Some(c), Some(d)) => Some(((a * 16 + b) * 16 + c) * 16 + d)
      case _ => None
  }

  /** The units of the first character of a JSON string's contents, and what follows it. */
  function ParseChar(s: string): Option<(seq<int>, string)> {
    if s == "" || s[0] == '"' || s[0] < ' ' then None
    else if s[0] != '\\' then Some((UnitsOf(s[0]), s[1..]))
    else if |s| > 1 && s[1] == 'u' then
      match HexEscape(s[2..])
      case Some(n) => Some(([n], s[6..]))
      case None => None
    else if |s| > 1 then
      match SimpleEscape(s[1])
      case Some(c) => Some((UnitsOf(c), s[2..]))
      case None => None
    else None
  }

  /** The contents of a JSON string up to its closing quote, and what follows. */
  function ParseText(s: string): (r: Option<(seq<int>, string)>)
    ensures r.Some? ==> |r.value.1| < |s|
    decreases |s|
  {
    if s != "" && s[0] == '"' then Some(([], s[1..]))
    else
      match ParseChar(s)
      case None => None
      case Some((units, rest)) =>
        if |rest| >= |s| then None
        else
          match ParseText(rest)
          case None => None
          case Some((more, after)) => Some((units + more, after))
  }

  predicate JsonSpace(c: char) {
    c == ' ' || c == '\t' || c == '\n' || c == '\r'
  }

  function Skip(s: string): (r: string)
    ensures |r| <= |s|
  {
    if s != "" && JsonSpace(s[0]) then Skip(s[1..]) else s
  }

  predicate StartsDigit(s: string) {
    s != "" && '0' <= s[0] <= '9'
  }

  /** The digits a text starts with, appended to `n`, and what follows. */
  function ParseDigits(s: string, n: nat): (r: (nat, string))
    ensures |r.1| <= |s| && (StartsDigit(s) ==> |r.1| < |s|)
    decreases |s|
  {
    if s != "" && '0' <= s[0] <= '9' then ParseDigits(s[1..], 10 * n + (s[0] as int - '0' as int)) else (n, s)
  }

  /** The digits after a decimal point, if there is one: the number so far, its scale and what follows. */
  function ParseFraction(s: string, n: nat): (r: Option<(nat, int, string)>)
    ensures r.Some? ==> |r.value.2| <= |s|
  {
    if s == "" || s[0] != '.' then Some((n, 0, s))
    else if !StartsDigit(s[1..]) then None
    else
      var (m, rest) := ParseDigits(s[1..], n);
      Some((m, |rest| - |s[1..]|, rest))
  }

  /** An exponent, if there is one. */
  function ParseExponent(s: string): (r: Option<(int, string)>)
    ensures r.Some? ==> |r.value.1| <= |s|
  {
    if s == "" || (s[0] != 'e' && s[0] != 'E') then Some((0, s))
    else
      var signed := |s| > 1 && (s[1] == '-' || s[1] == '+');
      var digits := if signed then s[2..] else s[1..];
      if !StartsDigit(digits) then None
      else
        var (e, rest) := ParseDigits(digits, 0);
        var magnitude: int := e;
        Some((if signed && s[1] == '-' then -magnitude else magnitude, rest))
  }

  /** A number (section 6): no leading zeros, a digit on both sides of a point. */
  function ParseNumber(s: string): (r: Option<(JValue, string)>)
    ensures r.Some? ==> |r.value.1| < |s|
  {
    var t := if s != "" && s[0] == '-' then s[1..] else s;
    if !StartsDigit(t) then None
    else
      var (n, whole) := if t[0] == '0' then (0, t[1..]) else ParseDigits(t, 0);
      match ParseFraction(whole, n)
      case None => None
      case Some((m, scale, fraction)) =>
        match ParseExponent(fraction)
        case None => None
        case Some((e, rest)) => Some((JNumber(m, scale + e), rest))
  }

  function ParseValue(s: string): (r: Option<(JValue, string)>)
    ensures r.Some? ==> |r.value.1| < |s|
    decreases |s|, 0
  {
    if s == "" then None
    else if s[0] == '"' then
      match ParseText(s[1..])
      case Some((units, rest)) => Some((JString(units), rest))
      case None => None
    else if s[0] == '{' then
      var inner := Skip(s[1..]);
      if inner != "" && inner[0] == '}' then Some((JObject(map[]), inner[1..])) else ParseMembers(s[1..], map[])
    else if s[0] == '[' then
      var inner := Skip(s[1..]);
      if inner != "" && inner[0] == ']' then Some((JArray, inner[1..])) else ParseElements(s[1..])
    else if At(s, 0, "null") then Some((JNull, s[4..]))
    else if At(s, 0, "true") then Some((JBool(true), s[4..]))
    else if At(s, 0, "false") then Some((JBool(false), s[5..]))
    else ParseNumber(s)
  }

  /** The elements of an array up to its closing bracket. */
  function ParseElements(s: string): (r: Option<(JValue, string)>)
    ensures r.Some? ==> |r.value.1| < |s|
    decreases |s|, 1
  {
    match ParseValue(Skip(s))
    case None => None
    case Some((_, after)) =>
      var next := Skip(after);
      if next != "" && next[0] == ',' then ParseElements(next[1..])
      else if next != "" && next[0] == ']' then Some((JArray, next[1..]))
      else None
  }

  /** The members of an object up to its closing brace; a repeated key takes its last value. */
  function ParseMembers(s: string, o: map<seq<int>, JValue>): (r: Option<(JValue, string)>)
    ensures r.Some? ==> |r.value.1| < |s|
    decreases |s|, 1
  {
    var k := Skip(s);
    if k == "" || k[0] != '"' then None
    else
      match ParseText(k[1..])
      case None => None
      case Some((key, afterKey)) =>
        var colon := Skip(afterKey);
        if colon == "" || colon[0] != ':' then None
        else
          match ParseValue(Skip(colon[1..]))
          case None => None
          case Some((value, afterValue)) =>
            var next := Skip(afterValue);
            if next != "" && next[0] == ',' then ParseMembers(next[1..], o[key := value])
            else if next != "" && next[0] == '}' then Some((JObject(o[key := value]), next[1..]))
            else None
  }

  /** `JSON.parse`; `None` stands for its SyntaxError. */
  function ParseJson(s: string): Option<JValue> {
    match ParseValue(Skip(s))
    case None => None
    case Some((v, rest)) => if Skip(rest) == "" then Some(v) else None
  }

  // ---- texts and their units ----

  lemma NoUnits()
    ensures Units("") == []
  {
  }

  lemma UnitsCons(s: string)
    requires s != ""
    ensures Units(s) == UnitsOf(s[0]) + Units(s[1..])
  {
  }

  /** A character that starts with the unit of an ASCII character is that character. */
  lemma AsciiUnit(a: char, b: char)
    requires IsAscii(a)
    ensures UnitsOf(a) == [a as int] && UnitsOf(b) != [] && (UnitsOf(b)[0] == a as int <==> a == b)
  {
  }

  /** An ASCII text has the units of no other text. */
  lemma {:induction false} AsciiUnits(a: string, b: string)
    requires All(a, IsAscii)
    ensures Units(a) == Units(b) <==> a == b
  {
    hide Units, UnitsOf;
    if a == "" || b == "" {
      if a != "" { UnitsNotEmpty(a); }
      if b != "" { UnitsNotEmpty(b); }
      NoUnits();
    } else {
      AsciiUnits(a[1..], b[1..]);
      UnitsCons(a);
      UnitsCons(b);
      AsciiUnit(a[0], b[0]);
      assert a == [a[0]] + a[1..] && b == [b[0]] + b[1..];
      assert Units(a)[0] == a[0] as int && Units(b)[0] == UnitsOf(b[0])[0];
      if a[0] == b[0] {
        assert Units(a)[1..] == Units(a[1..]) && Units(b)[1..] == Units(b[1..]);
      }
    }
  }

  lemma UnitsNotEmpty(s: string)
    requires s != ""
    ensures Units(s) != []
  {
  }

  /** A character is one unit, or above 0xFFFF a high and a low surrogate that give it back. */
  lemma UnitsOfChar(c: char)
    ensures var u, n := UnitsOf(c), c as int;
      && (n < 0x10000 ==> u == [n])
      && (n >= 0x10000 ==> |u| == 2 && 0xD800 <= u[0] < 0xDC00 <= u[1] < 0xE000)
      && (n >= 0x10000 ==> n == 0x10000 + (u[0] - 0xD800) * 0x400 + (u[1] - 0xDC00))
  {
  }
}
