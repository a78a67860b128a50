/** JSON as it is written (RFC 8259): texts as trees of their parts, and the parser as exactly this grammar. */
module JsonGrammar {
  import opened JsonText
  import opened Text

  /** White space between tokens (section 2). */
  ghost predicate Blank(s: string) {
    forall i :: 0 <= i < |s| ==> s[i] in {' ', '\t', '\n', '\r'}
  }

  // ---- strings (section 7) ----

  /** One character of a string: itself, a two-character escape, or four hexadecimal digits. */
  datatype Piece = Plain(c: char) | Short(c: char) | Hex(digits: string)

  predicate IsHex(c: char) {
    '0' <= c <= '9' || 'a' <= c <= 'f' || 'A' <= c <= 'F'
  }

  predicate LegalPiece(p: Piece) {
    match p
    case Plain(c) => c >= ' ' && c != '"' && c != '\\'
    case Short(c) => c in {'"', '\\', '/', 'b', 'f', 'n', 'r', 't'}
    case Hex(ds) => |ds| == 4 && IsHex(ds[0]) && IsHex(ds[1]) && IsHex(ds[2]) && IsHex(ds[3])
  }

  function PrintPiece(p: Piece): string {
    match p
    case Plain(c) => [c]
    case Short(c) => ['\\', c]
    case Hex(ds) => "\\u" + ds
  }

  function Nibble(c: char): int {
    if c <= '9' then c as int - '0' as int
    else if c >= 'a' then 10 + (c as int - 'a' as int)
    else 10 + (c as int - 'A' as int)
  }

  function PieceUnits(p: Piece): seq<int> {
    match p
    case Plain(c) => UnitsOf(c)
    case Short(c) =>
      [match c
       case 'b' => 8
       case 't' => 9
       case 'n' => 10
       case 'f' => 12
       case 'r' => 13
       case _ => c as int]
    case Hex(ds) =>
      if |ds| != 4 then [] else [4096 * Nibble(ds[0]) + 256 * Nibble(ds[1]) + 16 * Nibble(ds[2]) + Nibble(ds[3])]
  }

  function PrintPieces(ps: seq<Piece>): string {
    if ps == [] then "" else PrintPiece(ps[0]) + PrintPieces(ps[1..])
  }

  function PiecesUnits(ps: seq<Piece>): seq<int> {
    if ps == [] then [] else PieceUnits(ps[0]) + PiecesUnits(ps[1..])
  }

  predicate LegalPieces(ps: seq<Piece>) {
    forall i :: 0 <= i < |ps| ==> LegalPiece(ps[i])
  }

  // ---- values ----

  /** A value as it is written. */
  datatype Tree =
    | Word(w: string)
    | Number(minus: bool, whole: string, fraction: Option<string>, exponent: Option<Exponent>)
    | Quoted(pieces: seq<Piece>)
    | EmptyArray(blank: string)
    | Array(elements: Elements)
    | EmptyObject(blank: string)
    | Object(members: Members)

  datatype Exponent = Exponent(letter: char, sign: string, digits: string)

  datatype Elements =
    | Last(before: string, value: Tree, after: string)
    | Next(before: string, value: Tree, after: string, rest: Elements)

  /** Members, each with the white space before its key, around its colon and after its value. */
  datatype Members = Members(
    before: string, key: seq<Piece>, mid: string, gap: string, value: Tree, after: string, more: Option<Members>)

  function PrintNumber(t: Tree): string
    requires t.Number?
  {
    (if t.minus then "-" else "") + (t.whole + (PrintFraction(t.fraction) + PrintExponent(t.exponent)))
  }

  function PrintFraction(fraction: Option<string>): string {
    if fraction.None? then "" else "." + fraction.value
  }

  function PrintExponent(e: Option<Exponent>): string {
    if e.None? then "" else [e.value.letter] + (e.value.sign + e.value.digits)
  }

  function Print(t: Tree): string {
    match t
    case Word(w) => w
    case Number(_, _, _, _) => PrintNumber(t)
    case Quoted(ps) => "\"" + (PrintPieces(ps) + "\"")
    case EmptyArray(blank) => "[" + (blank + "]")
    case Array(es) => "[" + PrintElements(es)
    case EmptyObject(blank) => "{" + (blank + "}")
    case Object(ms) => "{" + PrintMembers(ms)
  }

  function PrintElements(es: Elements): string {
    es.before + (Print(es.value) + (es.after + if es.Last? then "]" else "," + PrintElements(es.rest)))
  }

  function PrintMembers(ms: Members): string {
    MemberText(ms, Print(ms.value), match ms.more case None => "}" case Some(rest) => "," + PrintMembers(rest))
  }

  /** One member whose value is written as `value`, and then `last`. */
  function MemberText(ms: Members, value: string, last: string): string {
    ms.before + ("\"" + (PrintPieces(ms.key) + ("\"" + (ms.mid + (":" + (ms.gap + (value + (ms.after + last))))))))
  }

  lemma MemberTextThen(ms: Members, value: string, last: string, rest: string)
    ensures MemberText(ms, value, last) + rest == MemberText(ms, value, last + rest)
  {
    hide PrintPieces;
    assert (value + (ms.after + last)) + rest == value + (ms.after + (last + rest));
    var a := ms.gap + (value + (ms.after + last));
    assert a + rest == ms.gap + (value + (ms.after + (last + rest)));
    var b := ms.mid + (":" + a);
    assert b + rest == ms.mid + (":" + (a + rest));
    var c := PrintPieces(ms.key) + ("\"" + b);
    assert c + rest == PrintPieces(ms.key) + ("\"" + (b + rest));
  }

  ghost predicate AllDigits(s: string) {
    s != "" && All(s, IsDigit)
  }

  ghost predicate LegalNumber(t: Tree)
    requires t.Number?
  {
    && AllDigits(t.whole) && (t.whole[0] == '0' ==> |t.whole| == 1)
    && (t.fraction.Some? ==> AllDigits(t.fraction.value)) && (t.exponent.Some? ==> LegalExponent(t.exponent.value))
  }

  ghost predicate LegalExponent(e: Exponent) {
    e.letter in {'e', 'E'} && e.sign in {"", "-", "+"} && AllDigits(e.digits)
  }

  ghost predicate Legal(t: Tree) {
    match t
    case Word(w) => w in {"null", "true", "false"}
    case Number(_, _, _, _) => LegalNumber(t)
    case Quoted(ps) => LegalPieces(ps)
    case EmptyArray(blank) => Blank(blank)
    case Array(es) => LegalElements(es)
    case EmptyObject(blank) => Blank(blank)
    case Object(ms) => LegalMembers(ms)
  }

  ghost predicate LegalElements(es: Elements) {
    Blank(es.before) && Legal(es.value) && Blank(es.after) && (es.Next? ==> LegalElements(es.rest))
  }

  ghost predicate LegalMembers(ms: Members) {
    && Blank(ms.before) && LegalPieces(ms.key) && Blank(ms.mid) && Blank(ms.gap) && Legal(ms.value) && Blank(ms.after)
    && match ms.more case None => true case Some(rest) => LegalMembers(rest)
  }

  /** The digits of a number as a whole number, and the power of ten they are scaled by. */
  ghost function NumberValue(t: Tree): JValue
    requires t.Number? && LegalNumber(t)
  {
    var f := t.fraction.GetOr("");
    JNumber(DigitsValue(t.whole + f), -|f| + ExponentValue(t.exponent))
  }

  ghost function ExponentValue(e: Option<Exponent>): int
    requires e.Some? ==> LegalExponent(e.value)
  {
    if e.None? then 0 else (if e.value.sign == "-" then -1 else 1) * DigitsValue(e.value.digits)
  }

  ghost function Value(t: Tree): JValue
    requires Legal(t)
  {
    match t
    case Word(w) => if w == "null" then JNull else JBool(w == "true")
    case Number(_, _, _, _) => NumberValue(t)
    case Quoted(ps) => JString(PiecesUnits(ps))
    case EmptyArray(_) => JArray
    case Array(_) => JArray
    case EmptyObject(_) => JObject(map[])
    case Object(ms) => JObject(Filled(ms, map[]))
  }

  /** The members stored one after the other: a repeated key takes its last value. */
  ghost function Filled(ms: Members, o: map<seq<int>, JValue>): map<seq<int>, JValue>
    requires LegalMembers(ms)
    decreases ms
  {
    var stored := o[PiecesUnits(ms.key) := Value(ms.value)];
    match ms.more case None => stored case Some(rest) => Filled(rest, stored)
  }

  // ---- what is printed is parsed ----

  lemma {:induction false} SkipBlank(blank: string, rest: string)
    requires Blank(blank) && (rest != "" ==> !JsonSpace(rest[0]))
    ensures Skip(blank + rest) == rest
  {
    if blank == "" {
      assert blank + rest == rest;
    } else {
      assert (blank + rest)[1..] == blank[1..] + rest;
      SkipBlank(blank[1..], rest);
    }
  }

  lemma PieceParses(p: Piece, rest: string)
    requires LegalPiece(p)
    ensures PrintPiece(p) != "" && PrintPiece(p)[0] != '"'
    ensures ParseChar(PrintPiece(p) + rest) == Some((PieceUnits(p), rest))
  {
    var e := PrintPiece(p);
    var s := e + rest;
    assert s[|e|..] == rest;
    if p.Hex? {
      var h := s[2..];
      assert h[0] == p.digits[0] && h[1] == p.digits[1] && h[2] == p.digits[2] && h[3] == p.digits[3];
      assert s[0] == '\\' && s[1] == 'u';
    } else if p.Short? {
      assert s[0] == '\\' && s[1] == p.c;
    }
  }

  lemma {:induction false} PiecesParse(ps: seq<Piece>, rest: string)
    requires LegalPieces(ps)
    ensures ParseText(PrintPieces(ps) + ("\"" + rest)) == Some((PiecesUnits(ps), rest))
  {
    hide ParseChar, PrintPiece, PieceUnits, LegalPiece;
    var s := PrintPieces(ps) + ("\"" + rest);
    if ps == [] {
      assert s == "\"" + rest;
    } else {
      var tail := PrintPieces(ps[1..]) + ("\"" + rest);
      assert s == PrintPiece(ps[0]) + tail;
      PieceParses(ps[0], tail);
      PiecesParse(ps[1..], rest);
    }
  }

  lemma DigitsSnoc(pre: string, c: char)
    requires (pre == "" || AllDigits(pre)) && IsDigit(c)
    ensures AllDigits(pre + [c]) && All(pre, IsDigit)
    ensures DigitsValue(pre + [c]) == 10 * DigitsValue(pre) + (c as int - '0' as int)
  {
    assert (pre + [c])[..|pre + [c]| - 1] == pre;
  }

  lemma DigitsTail(ds: string)
    requires ds == "" || AllDigits(ds)
    ensures All(ds, IsDigit) && (ds != "" ==> IsDigit(ds[0]) && (ds[1..] == "" || AllDigits(ds[1..])))
  {
  }

  lemma {:induction false} DigitsParse(pre: string, ds: string, rest: string)
    requires (pre == "" || AllDigits(pre)) && (ds == "" || AllDigits(ds)) && !StartsDigit(rest)
    ensures All(pre, IsDigit) && All(pre + ds, IsDigit)
    ensures ParseDigits(ds + rest, DigitsValue(pre)) == (DigitsValue(pre + ds), rest)
    decreases |ds|
  {
    hide DigitsValue, All, AllDigits;
    DigitsTail(pre);
    DigitsTail(ds);
    if ds == "" {
      assert ds + rest == rest && pre + ds == pre;
    } else {
      var next := pre + [ds[0]];
      DigitsSnoc(pre, ds[0]);
      DigitsParse(next, ds[1..], rest);
      assert (ds + rest)[1..] == ds[1..] + rest;
      assert next + ds[1..] == pre + ds;
    }
  }

  lemma DigitsFromZero(ds: string, rest: string)
    requires AllDigits(ds) && !StartsDigit(rest)
    ensures All(ds, IsDigit) && ParseDigits(ds + rest, 0) == (DigitsValue(ds), rest)
    ensures StartsDigit(ds + rest) && (ds + rest)[0] == ds[0]
  {
    DigitsParse("", ds, rest);
    assert "" + ds == ds && DigitsValue("") == 0;
  }

  /** What may follow a value: nothing, white space, a comma or a closing bracket. */
  ghost predicate Delimited(rest: string) {
    rest != "" ==> rest[0] in {' ', '\t', '\n', '\r', ',', ']', '}'}
  }

  lemma ExponentParses(e: Option<Exponent>, rest: string)
    requires (e.Some? ==> LegalExponent(e.value)) && Delimited(rest)
    ensures ParseExponent(PrintExponent(e) + rest) == Some((ExponentValue(e), rest))
  {
    hide ParseExponent, ExponentValue;
    if e.None? {
      assert PrintExponent(e) + rest == rest;
      NoExponent(rest);
    } else {
      assert PrintExponent(e) == [e.value.letter] + (e.value.sign + e.value.digits);
      SomeExponent(e.value, rest);
    }
    assert e.None? ==> ExponentValue(e) == 0 by { ZeroExponent(); }
  }

  lemma ZeroExponent()
    ensures ExponentValue(None) == 0
  {
  }

  lemma SomeExponent(e: Exponent, rest: string)
    requires LegalExponent(e) && Delimited(rest)
    ensures ParseExponent([e.letter] + (e.sign + e.digits) + rest) == Some((ExponentValue(Some(e)), rest))
  {
    hide DigitsValue, ParseDigits, AllDigits, ParseExponent;
    NotDelimited(rest);
    DigitsFromZero(e.digits, rest);
    assert [e.letter] + (e.sign + e.digits) + rest == [e.letter] + (e.sign + (e.digits + rest));
    SignParses(e.letter, e.sign, e.digits + rest);
  }

  lemma NotDelimited(rest: string)
    requires Delimited(rest)
    ensures !StartsDigit(rest)
  {
  }

  lemma NoExponent(rest: string)
    requires Delimited(rest)
    ensures ParseExponent(rest) == Some((0, rest))
  {
  }

  lemma SignParses(letter: char, sign: string, digits: string)
    requires letter in {'e', 'E'} && sign in {"", "-", "+"} && StartsDigit(digits)
    ensures var (n, rest) := ParseDigits(digits, 0);
      ParseExponent([letter] + (sign + digits)) == Some(((if sign == "-" then -1 else 1) * n, rest))
  {
    hide ParseDigits;
    var s := [letter] + (sign + digits);
    if sign == "" {
      assert s[1..] == digits && s[1] == digits[0];
    } else {
      assert s[1] == sign[0] && s[2..] == digits;
    }
  }

  lemma FractionParses(whole: string, f: Option<string>, rest: string)
    requires AllDigits(whole) && (f.Some? ==> AllDigits(f.value))
    requires rest != "" ==> rest[0] != '.' && !('0' <= rest[0] <= '9')
    ensures All(whole, IsDigit) && All(whole + f.GetOr(""), IsDigit)
    ensures ParseFraction(PrintFraction(f) + rest, DigitsValue(whole)) ==
      Some((DigitsValue(whole + f.GetOr("")), -|f.GetOr("")|, rest))
  {
    hide DigitsValue, ParseDigits, IsDigit;
    var s := PrintFraction(f) + rest;
    if f.None? {
      assert s == rest && whole + "" == whole;
    } else {
      assert s[0] == '.' && s[1..] == f.value + rest;
      DigitsParse(whole, f.value, rest);
      StartsSame(f.value, rest);
    }
  }

  lemma StartsSame(ds: string, rest: string)
    ensures AllDigits(ds) ==> StartsDigit(ds + rest)
  {
  }

  lemma NoPointHere(e: Option<Exponent>, rest: string)
    requires (e.Some? ==> LegalExponent(e.value)) && Delimited(rest)
    ensures var s := PrintExponent(e) + rest; s != "" ==> s[0] != '.' && !('0' <= s[0] <= '9')
  {
    var s := PrintExponent(e) + rest;
    if e.None? { assert s == rest; } else { assert s[0] == e.value.letter; }
  }

  lemma WholeParses(whole: string, rest: string)
    requires AllDigits(whole) && (whole[0] == '0' ==> |whole| == 1) && !StartsDigit(rest)
    ensures All(whole, IsDigit)
    ensures var s := whole + rest;
      StartsDigit(s) && (if s[0] == '0' then (0, s[1..]) else ParseDigits(s, 0)) == (DigitsValue(whole), rest)
  {
    hide ParseDigits;
    DigitsFromZero(whole, rest);
    if whole[0] == '0' {
      assert whole[..0] == "" && DigitsValue(whole) == 0;
      assert (whole + rest)[1..] == rest;
    }
  }

  lemma NumberParses(t: Tree, rest: string)
    requires t.Number? && LegalNumber(t) && Delimited(rest)
    ensures ParseNumber(PrintNumber(t) + rest) == Some((NumberValue(t), rest))
  {
    hide DigitsValue, ParseDigits, ParseFraction, ParseExponent, PrintFraction, PrintExponent, ExponentValue;
    var third := PrintExponent(t.exponent) + rest;
    var second := PrintFraction(t.fraction) + third;
    var body := t.whole + second;
    ExponentParses(t.exponent, rest);
    NoPointHere(t.exponent, rest);
    FractionParses(t.whole, t.fraction, third);
    FractionStarts(t.fraction, third);
    WholeParses(t.whole, second);
    var s := PrintNumber(t) + rest;
    if t.minus {
      assert s[0] == '-' && s[1..] == body;
    } else {
      assert s == body;
    }
  }

  lemma FractionStarts(f: Option<string>, rest: string)
    requires !StartsDigit(rest)
    ensures !StartsDigit(PrintFraction(f) + rest)
  {
    if f.None? { assert PrintFraction(f) + rest == rest; }
  }

  /** How a value starts decides how it is parsed. */
  lemma Starts(t: Tree)
    requires Legal(t)
    ensures var s := Print(t);
      && s != "" && !JsonSpace(s[0]) && s[0] != ']'
      && (s[0] == '"' <==> t.Quoted?)
      && (s[0] == '[' <==> t.EmptyArray? || t.Array?)
      && (s[0] == '{' <==> t.EmptyObject? || t.Object?)
      && (t.Number? ==> s[0] == '-' || '0' <= s[0] <= '9')
  {
    hide LegalElements, LegalMembers;
    if t.Number? { NumberStarts(t); }
  }

  lemma NumberStarts(t: Tree)
    requires t.Number? && LegalNumber(t)
    ensures var s := PrintNumber(t); s != "" && (s[0] == '-' || '0' <= s[0] <= '9')
  {
  }

  lemma WordParses(w: string, rest: string)
    requires w in {"null", "true", "false"}
    ensures ParseValue(w + rest) == Some((Value(Word(w)), rest))
  {
    var s := w + rest;
    assert s[0] == w[0];
    assert s[..|w|] == w && s[|w|..] == rest;
    if w != "null" { NotAt(s, 0, "null", 0); }
    if w == "false" { NotAt(s, 0, "true", 0); }
  }

  lemma NumberIsNoWord(s: string)
    requires s != "" && (s[0] == '-' || '0' <= s[0] <= '9')
    ensures ParseValue(s) == ParseNumber(s)
  {
    hide ParseNumber;
    NotAt(s, 0, "null", 0);
    NotAt(s, 0, "true", 0);
    NotAt(s, 0, "false", 0);
  }

  lemma {:induction false} ParsePrinted(t: Tree, rest: string)
    requires Legal(t) && Delimited(rest)
    ensures ParseValue(Print(t) + rest) == Some((Value(t), rest))
    decreases t
  {
    hide ParseNumber, ParseText, PrintPieces, PiecesUnits, LegalPieces, Delimited;
    hide PrintNumber, NumberValue, LegalNumber;
    hide ParseElements, ParseMembers, LegalElements, LegalMembers, PrintElements, PrintMembers, Filled, Blank;
    var s := Print(t) + rest;
    Starts(t);
    assert s[0] == Print(t)[0];
    match t
    case Word(w) => WordParses(w, rest);
    case Number(_, _, _, _) =>
      NumberParses(t, rest);
      NumberIsNoWord(s);
    case Quoted(ps) =>
      PiecesParse(ps, rest);
      assert s[1..] == PrintPieces(ps) + ("\"" + rest);
    case EmptyArray(blank) =>
      assert s[1..] == blank + ("]" + rest);
      SkipBlank(blank, "]" + rest);
      assert ("]" + rest)[1..] == rest;
    case Array(es) =>
      assert s[1..] == PrintElements(es) + rest;
      ElementsParse(es, rest);
      ElementsStart(es, rest);
    case EmptyObject(blank) =>
      assert s[1..] == blank + ("}" + rest);
      SkipBlank(blank, "}" + rest);
      assert ("}" + rest)[1..] == rest;
    case Object(ms) =>
      assert s[1..] == PrintMembers(ms) + rest;
      MembersParse(ms, map[], rest);
      MembersStart(ms, rest);
  }

  lemma ElementsStart(es: Elements, rest: string)
    requires LegalElements(es)
    ensures var inner := Skip(PrintElements(es) + rest); inner != "" && inner[0] != ']'
  {
    hide Legal, Print, Skip, JsonSpace;
    Starts(es.value);
    var tail := es.after + (if es.Last? then "]" else "," + PrintElements(es.rest)) + rest;
    assert PrintElements(es) + rest == es.before + (Print(es.value) + tail);
    SkipBlank(es.before, Print(es.value) + tail);
  }

  lemma MembersStart(ms: Members, rest: string)
    requires LegalMembers(ms)
    ensures var inner := Skip(PrintMembers(ms) + rest); inner != "" && inner[0] == '"'
  {
    hide Legal, Print, Skip, PrintPieces;
    var tail :| PrintMembers(ms) == ms.before + ("\"" + tail);
    assert PrintMembers(ms) + rest == ms.before + ("\"" + (tail + rest));
    SkipBlank(ms.before, "\"" + (tail + rest));
  }

  lemma BlankDelimits(blank: string, next: string)
    requires Blank(blank) && next != "" && next[0] in {',', ']', '}'}
    ensures Delimited(blank + next) && Skip(blank + next) == next
  {
    SkipBlank(blank, next);
    if blank == "" { assert blank + next == next; } else { assert (blank + next)[0] == blank[0]; }
  }

  lemma {:induction false} ElementsParse(es: Elements, rest: string)
    requires LegalElements(es)
    ensures ParseElements(PrintElements(es) + rest) == Some((JArray, rest))
    decreases es
  {
    hide ParseValue, Legal, Value, Print, Skip, Blank, JsonSpace, Delimited;
    Starts(es.value);
    var next := if es.Last? then "]" + rest else "," + (PrintElements(es.rest) + rest);
    var after := es.after + next;
    assert PrintElements(es) + rest == es.before + (Print(es.value) + after);
    SkipBlank(es.before, Print(es.value) + after);
    BlankDelimits(es.after, next);
    ParsePrinted(es.value, after);
    if es.Last? {
      assert next[1..] == rest;
    } else {
      assert next[1..] == PrintElements(es.rest) + rest;
      ElementsParse(es.rest, rest);
    }
  }

  lemma MemberThen(ms: Members, rest: string)
    ensures PrintMembers(ms) + rest == MemberText(ms, Print(ms.value),
      match ms.more case None => "}" + rest case Some(more) => "," + (PrintMembers(more) + rest))
  {
    hide Print, MemberText;
    match ms.more
    case None => MemberTextThen(ms, Print(ms.value), "}", rest);
    case Some(more) =>
      MemberTextThen(ms, Print(ms.value), "," + PrintMembers(more), rest);
      assert "," + PrintMembers(more) + rest == "," + (PrintMembers(more) + rest);
  }

  lemma {:induction false} MembersParse(ms: Members, o: map<seq<int>, JValue>, rest: string)
    requires LegalMembers(ms)
    ensures ParseMembers(PrintMembers(ms) + rest, o) == Some((JObject(Filled(ms, o)), rest))
    decreases ms
  {
    hide ParseValue, ParseText, Legal, Value, Print, Skip, Blank, JsonSpace, Delimited;
    hide PrintPieces, PiecesUnits, LegalPieces;
    Starts(ms.value);
    var next := match ms.more case None => "}" + rest case Some(more) => "," + (PrintMembers(more) + rest);
    var after := ms.after + next;
    var value := ms.gap + (Print(ms.value) + after);
    var colon := ":" + value;
    var key := PrintPieces(ms.key) + ("\"" + (ms.mid + colon));
    MemberThen(ms, rest);
    assert PrintMembers(ms) + rest == ms.before + ("\"" + key);
    BlankBefore(ms.before, "\"" + key);
    assert ("\"" + key)[1..] == key;
    PiecesParse(ms.key, ms.mid + colon);
    BlankBefore(ms.mid, colon);
    assert colon[1..] == value;
    SkipBlank(ms.gap, Print(ms.value) + after);
    BlankDelimits(ms.after, next);
    ParsePrinted(ms.value, after);
    match ms.more
    case None => assert next[1..] == rest;
    case Some(more) =>
      assert next[1..] == PrintMembers(more) + rest;
      MembersParse(more, o[PiecesUnits(ms.key) := Value(ms.value)], rest);
  }

  lemma BlankBefore(blank: string, next: string)
    requires Blank(blank) && next != "" && next[0] in {'"', ':'}
    ensures Skip(blank + next) == next
  {
    SkipBlank(blank, next);
  }

  // ---- what is parsed was printed ----

  lemma {:induction false} Skipped(s: string) returns (blank: string)
    ensures Blank(blank) && s == blank + Skip(s)
  {
    if s != "" && JsonSpace(s[0]) {
      var more := Skipped(s[1..]);
      blank := [s[0]] + more;
    } else {
      blank := "";
    }
  }

  lemma HexParsed(s: string)
    requires HexEscape(s).Some?
    ensures |s| >= 4 && LegalPiece(Hex(s[..4])) && PieceUnits(Hex(s[..4])) == [HexEscape(s).value]
  {
  }

  lemma PieceParsed(s: string) returns (p: Piece)
    requires ParseChar(s).Some?
    ensures var (units, rest) := ParseChar(s).value;
      LegalPiece(p) && s == PrintPiece(p) + rest && units == PieceUnits(p)
  {
    hide HexEscape;
    if s[0] != '\\' {
      p := Plain(s[0]);
    } else if s[1] == 'u' {
      HexParsed(s[2..]);
      p := Hex(s[2..][..4]);
      assert s == s[..2] + s[2..][..4] + s[6..];
    } else {
      p := Short(s[1]);
    }
  }

  lemma {:induction false} PiecesParsed(s: string) returns (ps: seq<Piece>)
    requires ParseText(s).Some?
    ensures var (units, rest) := ParseText(s).value;
      LegalPieces(ps) && s == PrintPieces(ps) + ("\"" + rest) && units == PiecesUnits(ps)
    decreases |s|
  {
    hide ParseChar, PrintPiece, PieceUnits, LegalPiece;
    if s != "" && s[0] == '"' {
      ps := [];
      assert s == "\"" + s[1..];
    } else {
      var p := PieceParsed(s);
      var more := PiecesParsed(ParseChar(s).value.1);
      ps := [p] + more;
      assert ps[1..] == more;
    }
  }

  lemma {:induction false} DigitsParsed(s: string, pre: string) returns (ds: string)
    requires pre == "" || AllDigits(pre)
    ensures (ds == "" || AllDigits(ds)) && (StartsDigit(s) ==> ds != "") && All(pre, IsDigit) && All(pre + ds, IsDigit)
    ensures var (n, rest) := ParseDigits(s, DigitsValue(pre)); s == ds + rest && n == DigitsValue(pre + ds)
    decreases |s|
  {
    hide DigitsValue;
    if StartsDigit(s) {
      DigitsSnoc(pre, s[0]);
      var next := pre + [s[0]];
      var more := DigitsParsed(s[1..], next);
      ds := [s[0]] + more;
      assert next + more == pre + ds;
    } else {
      ds := "";
      assert pre + ds == pre;
    }
  }

  lemma SomeDigits(s: string) returns (ds: string)
    requires StartsDigit(s)
    ensures AllDigits(ds)
    ensures var (n, rest) := ParseDigits(s, 0); s == ds + rest && n == DigitsValue(ds)
  {
    ds := DigitsParsed(s, "");
    assert "" + ds == ds && DigitsValue("") == 0;
  }

  lemma SignedParsed(s: string) returns (e: Exponent)
    requires |s| > 1 && s[0] in {'e', 'E'} && s[1] in {'-', '+'} && StartsDigit(s[2..])
    ensures LegalExponent(e)
    ensures var (n, rest) := ParseDigits(s[2..], 0);
      s == [e.letter] + (e.sign + e.digits) + rest && (if s[1] == '-' then -1 else 1) * n == ExponentValue(Some(e))
  {
    hide ParseDigits, DigitsValue, AllDigits;
    var ds := SomeDigits(s[2..]);
    e := Exponent(s[0], [s[1]], ds);
    assert s == [s[0]] + ([s[1]] + s[2..]);
  }

  lemma UnsignedParsed(s: string) returns (e: Exponent)
    requires s != "" && s[0] in {'e', 'E'} && StartsDigit(s[1..])
    ensures LegalExponent(e)
    ensures var (n, rest) := ParseDigits(s[1..], 0);
      s == [e.letter] + (e.sign + e.digits) + rest && n == ExponentValue(Some(e))
  {
    hide ParseDigits, DigitsValue, AllDigits;
    var ds := SomeDigits(s[1..]);
    e := Exponent(s[0], "", ds);
    assert s == [s[0]] + ("" + s[1..]);
  }

  lemma ExponentParsed(s: string) returns (e: Option<Exponent>)
    requires ParseExponent(s).Some?
    ensures e.Some? ==> LegalExponent(e.value)
    ensures var (n, rest) := ParseExponent(s).value; s == PrintExponent(e) + rest && n == ExponentValue(e)
  {
    hide ParseDigits, LegalExponent, StartsDigit;
    if s == "" || (s[0] != 'e' && s[0] != 'E') {
      e := None;
    } else if |s| > 1 && (s[1] == '-' || s[1] == '+') {
      var signed := SignedParsed(s);
      e := Some(signed);
    } else {
      var unsigned := UnsignedParsed(s);
      e := Some(unsigned);
    }
  }

  lemma FractionParsed(s: string, whole: string) returns (f: Option<string>)
    requires AllDigits(whole) && ParseFraction(s, DigitsValue(whole)).Some?
    ensures (f.Some? ==> AllDigits(f.value)) && All(whole + f.GetOr(""), IsDigit)
    ensures var (n, scale, rest) := ParseFraction(s, DigitsValue(whole)).value;
      s == PrintFraction(f) + rest && n == DigitsValue(whole + f.GetOr("")) && scale == -|f.GetOr("")|
  {
    hide ParseDigits, DigitsValue, IsDigit;
    if s == "" || s[0] != '.' {
      f := None;
      assert whole + "" == whole;
    } else {
      var ds := DigitsParsed(s[1..], whole);
      f := Some(ds);
      assert s == "." + s[1..];
    }
  }

  lemma WholeParsed(t: string) returns (whole: string)
    requires StartsDigit(t)
    ensures AllDigits(whole) && (whole[0] == '0' ==> |whole| == 1)
    ensures |whole| <= |t| && t == whole + t[|whole|..] && All(whole, IsDigit)
    ensures (if t[0] == '0' then (0, t[1..]) else ParseDigits(t, 0)) == (DigitsValue(whole), t[|whole|..])
  {
    hide ParseDigits;
    if t[0] == '0' {
      whole := "0";
      assert whole[..0] == "";
    } else {
      whole := SomeDigits(t);
    }
  }

  lemma FourParts(a: string, b: string, c: string, d: string)
    ensures "" + (a + (b + c)) + d == a + (b + (c + d))
  {
  }

  /** A number without a sign. */
  lemma UnsignedNumber(s: string) returns (t: Tree)
    requires ParseNumber(s).Some? && s[0] != '-'
    ensures t.Number? && !t.minus && LegalNumber(t)
    ensures var (v, rest) := ParseNumber(s).value; s == PrintNumber(t) + rest && v == NumberValue(t)
  {
    hide ParseDigits, ParseFraction, ParseExponent, DigitsValue, AllDigits, PrintFraction, PrintExponent;
    hide ExponentValue, StartsDigit, IsDigit, LegalExponent;
    var whole := WholeParsed(s);
    var tail := s[|whole|..];
    var f := FractionParsed(tail, whole);
    var last := ParseFraction(tail, DigitsValue(whole)).value.2;
    var e := ExponentParsed(last);
    t := Number(false, whole, f, e);
    FourParts(whole, PrintFraction(f), PrintExponent(e), ParseExponent(last).value.1);
  }

  lemma MinusParsed(s: string)
    requires ParseNumber(s).Some? && s[0] == '-'
    ensures s[1..] != "" && s[1] != '-' && ParseNumber(s[1..]) == ParseNumber(s)
  {
    hide ParseDigits, ParseFraction, ParseExponent;
  }

  lemma Signed(t: Tree, rest: string)
    requires t.Number? && !t.minus && LegalNumber(t)
    ensures var m := t.(minus := true);
      LegalNumber(m) && NumberValue(m) == NumberValue(t) && PrintNumber(m) + rest == "-" + (PrintNumber(t) + rest)
  {
    hide DigitsValue, AllDigits, PrintFraction, PrintExponent, ExponentValue, LegalExponent;
  }

  lemma NumberParsed(s: string) returns (t: Tree)
    requires ParseNumber(s).Some?
    ensures t.Number? && LegalNumber(t)
    ensures var (v, rest) := ParseNumber(s).value; s == PrintNumber(t) + rest && v == NumberValue(t)
  {
    hide ParseNumber, PrintNumber, LegalNumber, NumberValue;
    assert s != "" by { SomethingParsed(s); }
    if s[0] == '-' {
      MinusParsed(s);
      var unsigned := UnsignedNumber(s[1..]);
      Signed(unsigned, ParseNumber(s).value.1);
      t := unsigned.(minus := true);
      assert s == "-" + s[1..];
    } else {
      t := UnsignedNumber(s);
    }
  }

  lemma SomethingParsed(s: string)
    ensures ParseNumber(s).Some? ==> s != ""
  {
    hide ParseDigits, ParseFraction, ParseExponent;
  }

  lemma {:induction false} ValueParsed(s: string) returns (t: Tree)
    requires ParseValue(s).Some?
    ensures Legal(t)
    ensures var (v, rest) := ParseValue(s).value; s == Print(t) + rest && v == Value(t)
    decreases |s|, 2
  {
    hide ParseNumber, ParseText, PrintPieces, PiecesUnits, LegalPieces, PrintNumber, NumberValue, LegalNumber;
    hide ParseElements, ParseMembers, LegalElements, LegalMembers, PrintElements, PrintMembers, Filled, Blank, Skip;
    if s[0] == '"' {
      var ps := PiecesParsed(s[1..]);
      t := Quoted(ps);
      assert s == "\"" + s[1..];
    } else if s[0] == '{' {
      t := ObjectParsed(s);
    } else if s[0] == '[' {
      t := ArrayParsed(s);
    } else {
      t := PlainParsed(s);
    }
  }

  lemma {:induction false} ArrayParsed(s: string) returns (t: Tree)
    requires ParseValue(s).Some? && s[0] == '['
    ensures Legal(t)
    ensures var (v, rest) := ParseValue(s).value; s == Print(t) + rest && v == Value(t)
    decreases |s|, 1
  {
    hide ParseElements, LegalElements, PrintElements, Blank, Skip, ParseMembers, ParseNumber;
    var blank := Skipped(s[1..]);
    var inner := Skip(s[1..]);
    if inner != "" && inner[0] == ']' {
      t := EmptyArray(blank);
      assert s == "[" + (blank + ("]" + inner[1..]));
    } else {
      var es := ElementsParsed(s[1..]);
      t := Array(es);
    }
  }

  lemma {:induction false} ObjectParsed(s: string) returns (t: Tree)
    requires ParseValue(s).Some? && s[0] == '{'
    ensures Legal(t)
    ensures var (v, rest) := ParseValue(s).value; s == Print(t) + rest && v == Value(t)
    decreases |s|, 1
  {
    hide ParseMembers, LegalMembers, PrintMembers, Filled, Blank, Skip, ParseElements, ParseNumber;
    var blank := Skipped(s[1..]);
    var inner := Skip(s[1..]);
    if inner != "" && inner[0] == '}' {
      t := EmptyObject(blank);
      assert s == "{" + (blank + ("}" + inner[1..]));
    } else {
      var ms := MembersParsed(s[1..], map[]);
      t := Object(ms);
    }
  }

  lemma PlainParsed(s: string) returns (t: Tree)
    requires ParseValue(s).Some? && s[0] !in {'"', '{', '['}
    ensures Legal(t)
    ensures var (v, rest) := ParseValue(s).value; s == Print(t) + rest && v == Value(t)
  {
    hide ParseNumber, PrintNumber, NumberValue, LegalNumber;
    if At(s, 0, "null") {
      t := Word("null");
    } else if At(s, 0, "true") {
      t := Word("true");
    } else if At(s, 0, "false") {
      t := Word("false");
    } else {
      t := NumberParsed(s);
    }
  }

  lemma {:induction false} ElementsParsed(s: string) returns (es: Elements)
    requires ParseElements(s).Some?
    ensures LegalElements(es)
    ensures var (v, rest) := ParseElements(s).value; s == PrintElements(es) + rest && v == JArray
    decreases |s|, 3
  {
    hide ParseValue, Legal, Value, Print, Skip, Blank, JsonSpace;
    var before := Skipped(s);
    var value := ValueParsed(Skip(s));
    var tail := ParseValue(Skip(s)).value.1;
    var after := Skipped(tail);
    var next := Skip(tail);
    if next[0] == ',' {
      var rest := ElementsParsed(next[1..]);
      es := Next(before, value, after, rest);
      assert next == "," + next[1..];
    } else {
      es := Last(before, value, after);
      assert next == "]" + next[1..];
    }
  }

  /** The first member up to its value, and how the parser goes on after it. */
  lemma KeyParsed(s: string, o: map<seq<int>, JValue>)
    returns (before: string, key: seq<Piece>, mid: string, gap: string, body: string)
    requires ParseMembers(s, o).Some?
    ensures Blank(before) && LegalPieces(key) && Blank(mid) && Blank(gap)
    ensures s == before + ("\"" + (PrintPieces(key) + ("\"" + (mid + (":" + (gap + body))))))
    ensures |body| < |s| && ParseValue(body).Some?
    ensures var (v, tail) := ParseValue(body).value;
      var next, stored := Skip(tail), o[PiecesUnits(key) := v];
      && next != "" && next[0] in {',', '}'}
      && ParseMembers(s, o)
        == if next[0] == ',' then ParseMembers(next[1..], stored) else Some((JObject(stored), next[1..]))
  {
    hide ParseValue, ParseText, Skip, Blank, JsonSpace, PrintPieces, PiecesUnits, LegalPieces;
    before := Skipped(s);
    var k := Skip(s);
    key := PiecesParsed(k[1..]);
    assert k == "\"" + k[1..];
    var afterKey := ParseText(k[1..]).value.1;
    mid := Skipped(afterKey);
    var colon := Skip(afterKey);
    assert colon == ":" + colon[1..];
    gap := Skipped(colon[1..]);
    body := Skip(colon[1..]);
  }

  lemma {:induction false} MembersParsed(s: string, o: map<seq<int>, JValue>) returns (ms: Members)
    requires ParseMembers(s, o).Some?
    ensures LegalMembers(ms)
    ensures var (v, rest) := ParseMembers(s, o).value; s == PrintMembers(ms) + rest && v == JObject(Filled(ms, o))
    decreases |s|, 3
  {
    hide ParseValue, ParseText, ParseMembers, Legal, Value, Print, Skip, Blank, PrintPieces, PiecesUnits, LegalPieces;
    hide PrintMembers;
    var before, key, mid, gap, body := KeyParsed(s, o);
    var value := ValueParsed(body);
    var (v, tail) := ParseValue(body).value;
    var after := Skipped(tail);
    var next := Skip(tail);
    if next[0] == ',' {
      var more := MembersParsed(next[1..], o[PiecesUnits(key) := v]);
      ms := Members(before, key, mid, gap, value, after, Some(more));
    } else {
      ms := Members(before, key, mid, gap, value, after, None);
    }
    Regrouped(ms, body, tail, next, ParseMembers(s, o).value.1, s);
  }

  lemma Regrouped(ms: Members, body: string, tail: string, next: string, rest: string, s: string)
    requires next != "" && next[0] == (if ms.more.Some? then ',' else '}')
    requires next[1..] == match ms.more case None => rest case Some(more) => PrintMembers(more) + rest
    requires s == ms.before + ("\"" + (PrintPieces(ms.key) + ("\"" + (ms.mid + (":" + (ms.gap + body))))))
    requires body == Print(ms.value) + tail && tail == ms.after + next
    ensures s == PrintMembers(ms) + rest
  {
    hide Print, PrintPieces, PrintMembers;
    MemberThen(ms, rest);
    assert next == [next[0]] + next[1..];
  }

  // ---- the parser is the grammar ----

  /** A whole text: one value between white space. */
  ghost predicate Spells(s: string, lead: string, t: Tree, tail: string) {
    Blank(lead) && Legal(t) && Blank(tail) && s == lead + (Print(t) + tail)
  }

  lemma BlankOnly(tail: string)
    ensures Blank(tail) <==> Skip(tail) == ""
    ensures Blank(tail) ==> Delimited(tail)
  {
    var blank := Skipped(tail);
    if Skip(tail) == "" { assert blank + "" == blank; }
    if Blank(tail) {
      assert tail + "" == tail;
      SkipBlank(tail, "");
    }
  }

  lemma SpelledParses(s: string, lead: string, t: Tree, tail: string)
    requires Spells(s, lead, t, tail)
    ensures ParseJson(s) == Some(Value(t))
  {
    hide ParseValue, Legal, Value, Print, Skip, Blank, Delimited, JsonSpace;
    Starts(t);
    BlankOnly(tail);
    SkipBlank(lead, Print(t) + tail);
    ParsePrinted(t, tail);
  }

  /** `JSON.parse` accepts exactly the texts of the grammar, and gives the value that is written there. */
  lemma ParseExactly(s: string, v: JValue)
    ensures ParseJson(s) == Some(v) <==>
      exists lead, t, tail :: Spells(s, lead, t, tail) && Value(t) == v
  {
    hide ParseValue, Legal, Value, Print, Skip, Blank, Delimited, JsonSpace;
    if ParseJson(s) == Some(v) {
      var lead := Skipped(s);
      var t := ValueParsed(Skip(s));
      var tail := ParseValue(Skip(s)).value.1;
      BlankOnly(tail);
      assert Spells(s, lead, t, tail);
    }
    forall lead, t, tail | Spells(s, lead, t, tail) ensures ParseJson(s) == Some(Value(t)) {
      SpelledParses(s, lead, t, tail);
    }
  }

  // ---- what `JSON.stringify` writes ----

  /** How a character of a string is written: as it is, unless it has to be escaped. */
  function PieceFor(c: char): Piece {
    if c == '"' || c == '\\' then Short(c)
    else if c == '\U{8}' then Short('b') else if c == '\t' then Short('t') else if c == '\n' then Short('n')
    else if c == '\U{c}' then Short('f') else if c == '\r' then Short('r')
    else if c < ' ' then Hex(['0', '0', HexDigit(c as int / 16), HexDigit(c as int % 16)])
    else Plain(c)
  }

  function PiecesFor(s: string): seq<Piece> {
    seq(|s|, i requires 0 <= i < |s| => PieceFor(s[i]))
  }

  lemma PieceForChar(c: char)
    ensures LegalPiece(PieceFor(c)) && PrintPiece(PieceFor(c)) == Escaped(c) && PieceUnits(PieceFor(c)) == UnitsOf(c)
  {
    if c < ' ' {
      HexNibble(c as int / 16);
      HexNibble(c as int % 16);
    }
  }

  lemma HexNibble(n: int)
    requires 0 <= n < 16
    ensures IsHex(HexDigit(n)) && Nibble(HexDigit(n)) == n && Nibble('0') == 0
  {
  }

  /** A printed string is legal JSON with the units of the text. */
  lemma {:induction false} PiecesForText(s: string)
    ensures LegalPieces(PiecesFor(s)) && PrintPieces(PiecesFor(s)) == EscapedAll(s)
    ensures PiecesUnits(PiecesFor(s)) == Units(s)
  {
    hide LegalPiece, PieceFor, PrintPiece, PieceUnits, Escaped, UnitsOf;
    if s != "" {
      PieceForChar(s[0]);
      PiecesForText(s[1..]);
      assert PiecesFor(s)[1..] == PiecesFor(s[1..]);
      assert PiecesFor(s) == [PieceFor(s[0])] + PiecesFor(s[1..]);
    }
  }

  // ---- members of an object ----

  /** The value of the last member with the key. */
  function LastMember(ms: Members, key: seq<int>): Option<Tree> {
    var later := match ms.more case None => None case Some(rest) => LastMember(rest, key);
    if later.Some? then later else if PiecesUnits(ms.key) == key then Some(ms.value) else None
  }

  lemma {:induction false} FilledLast(ms: Members, o: map<seq<int>, JValue>, key: seq<int>)
    requires LegalMembers(ms)
    ensures LastMember(ms, key).Some? ==>
      Legal(LastMember(ms, key).value) && key in Filled(ms, o) && Filled(ms, o)[key] == Value(LastMember(ms, key).value)
    ensures LastMember(ms, key).None? ==>
      (key in Filled(ms, o) <==> key in o) && (key in o ==> Filled(ms, o)[key] == o[key])
    decreases ms
  {
    hide Legal, Value, PiecesUnits, LegalPieces, Blank;
    if ms.more.Some? {
      FilledLast(ms.more.value, o[PiecesUnits(ms.key) := Value(ms.value)], key);
    }
  }
}
