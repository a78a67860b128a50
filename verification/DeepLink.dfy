/** The `#ctx=` deep link: JSON in unpadded URL-safe base64 (`encodeCtx`, `hashEncodes`). */
module DeepLink {
  import opened JsonGrammar
  import opened JsonText
  import opened Text

  predicate IsByte(c: char) {
    c as int < 256
  }

  // ---- base64 (section 4 of RFC 4648) ----

  predicate IsSextet(c: char) {
    'A' <= c <= 'Z' || 'a' <= c <= 'z' || '0' <= c <= '9' || c == '+' || c == '/'
  }

  function ToChar(i: int): (c: char)
    requires 0 <= i < 64
    ensures IsSextet(c) && FromChar(c) == i
  {
    if i < 26 then (i + 65) as char else if i < 52 then (i + 71) as char
    else if i < 62 then (i - 4) as char else if i == 62 then '+' else '/'
  }

  function FromChar(c: char): (i: int)
    requires IsSextet(c)
    ensures 0 <= i < 64
  {
    if 'A' <= c <= 'Z' then c as int - 65 else if 'a' <= c <= 'z' then c as int - 71
    else if '0' <= c <= '9' then c as int + 4 else if c == '+' then 62 else 63
  }

  /** `Buffer.toString("base64")`: padded groups of four characters. */
  function Encode(s: string): string
    requires All(s, IsByte)
  {
    if s == "" then ""
    else
      var a := s[0] as int;
      if |s| == 1 then [ToChar(a / 4), ToChar(a % 4 * 16), '=', '=']
      else
        var b := s[1] as int;
        if |s| == 2 then [ToChar(a / 4), ToChar(a % 4 * 16 + b / 16), ToChar(b % 16 * 4), '=']
        else
          var c := s[2] as int;
          [ToChar(a / 4), ToChar(a % 4 * 16 + b / 16), ToChar(b % 16 * 4 + c / 64), ToChar(c % 64)] + Encode(s[3..])
  }

  function Byte(n: int): char
    requires 0 <= n < 256
  {
    n as char
  }

  /** The bytes of an unpadded text; leftover bits are dropped. */
  function DecodeSextets(t: string): string
    requires All(t, IsSextet) && |t| % 4 != 1
  {
    if t == "" then ""
    else
      var a, b := FromChar(t[0]), FromChar(t[1]);
      var x := Byte(a * 4 + b / 16);
      if |t| == 2 then [x]
      else
        var c := FromChar(t[2]);
        var y := Byte(b % 16 * 16 + c / 4);
        if |t| == 3 then [x, y] else [x, y, Byte(c % 4 * 64 + FromChar(t[3]))] + DecodeSextets(t[4..])
  }

  predicate AtobSpace(c: char) {
    c == ' ' || c == '\t' || c == '\n' || c == '\U{c}' || c == '\r'
  }

  function Without(s: string, p: char -> bool): string {
    if s == "" then "" else Without(s[..|s| - 1], p) + (if p(s[|s| - 1]) then "" else [s[|s| - 1]])
  }

  function DropTwoPads(s: string): string {
    if |s| >= 2 && s[|s| - 2] == '=' && s[|s| - 1] == '=' then s[..|s| - 2]
    else if |s| >= 1 && s[|s| - 1] == '=' then s[..|s| - 1]
    else s
  }

  /** `atob`: white space is ignored, padding optional; `None` stands for its exception. */
  function Atob(text: string): Option<string> {
    var s := Without(text, AtobSpace);
    var t := if |s| % 4 == 0 then DropTwoPads(s) else s;
    if |t| % 4 == 1 || !All(t, IsSextet) then None else Some(DecodeSextets(t))
  }

  // ---- the URL-safe form (section 5 of RFC 4648) ----

  function UrlChar(c: char): char {
    if c == '+' then '-' else if c == '/' then '_' else c
  }

  function PlainChar(c: char): char {
    if c == '-' then '+' else if c == '_' then '/' else c
  }

  function MapChars(s: string, f: char -> char): string {
    seq(|s|, i requires 0 <= i < |s| => f(s[i]))
  }

  predicate IsPad(c: char) {
    c == '='
  }

  function Unpadded(s: string): string {
    StripRight(s, IsPad)
  }

  function Pads(n: nat): string {
    seq(n, i => '=')
  }

  function Padded(s: string): string {
    s + Pads((4 - |s| % 4) % 4)
  }

  // ---- the link ----

  const PREFIX := "#ctx="

  /** `id || null`. */
  function OrNull(id: Option<string>): Option<string> {
    if id == Some("") then None else id
  }

  function CtxJson(p: Option<string>, s: Option<string>): string {
    "{\"v\":1,\"p\":" + Stringify(OrNull(p)) + ",\"s\":" + Stringify(OrNull(s)) + "}"
  }

  ghost predicate AsciiId(id: Option<string>) {
    id.Some? ==> All(id.value, IsAscii)
  }

  /** The link that carries a text. */
  function LinkTo(json: string): string
    requires All(json, IsByte)
  {
    PREFIX + Unpadded(MapChars(Encode(json), UrlChar))
  }

  function EncodeCtx(p: Option<string>, s: Option<string>): string
    requires AsciiId(p) && AsciiId(s)
  {
    CtxJsonIsAscii(p, s);
    LinkTo(CtxJson(p, s))
  }

  /** The page's own links, of the second version, also name a league (`encodeContextHash`). */
  function ContextJson(p: Option<string>, s: Option<string>, l: Option<string>): string {
    "{\"v\":2,\"p\":" + Stringify(OrNull(p)) + ",\"s\":" + Stringify(OrNull(s)) + ",\"l\":" + Stringify(OrNull(l)) + "}"
  }

  /** `v || null` compared with an expected id: what is falsy counts as null, and only a text equals a text. */
  predicate IsId(v: JValue, expected: Option<string>) {
    match expected
    case None => Falsy(v)
    case Some(id) => !Falsy(v) && v == JString(Units(id))
  }

  /** `o.p` and `o.s`: only `null` refuses to be asked; what is no object has neither. */
  predicate Names(o: JValue, p: Option<string>, s: Option<string>) {
    !o.JNull? && IsId(Property(o, "p"), p) && IsId(Property(o, "s"), s)
  }

  function Property(o: JValue, key: string): JValue {
    if o.JObject? && Units(key) in o.members then o.members[Units(key)] else JNull
  }

  function Accepts(h: string, p: Option<string>, s: Option<string>): bool {
    At(h, 0, PREFIX) &&
    match Atob(Padded(MapChars(h[5..], PlainChar)))
    case None => false
    case Some(json) =>
      match ParseJson(json)
      case None => false
      case Some(o) => Names(o, p, s)
  }

  method HashEncodes(h: string, p: Option<string>, s: Option<string>) returns (accepted: bool)
    ensures accepted == Accepts(h, p, s)
  {
    hide Atob, ParseJson, Names;
    if !At(h, 0, PREFIX) {
      return false;
    }
    var b := MapChars(h[5..], PlainChar);
    ghost var padded := Padded(b);
    while |b| % 4 != 0
      invariant |b| <= |padded| < |b| + 4 && |padded| % 4 == 0 && padded == b + Pads(|padded| - |b|)
      decreases |padded| - |b|
    {
      PadsOneMore(b, |padded| - |b|);
      b := b + "=";
    }
    assert padded == b + Pads(0) == b;
    match Atob(b)
    case None => return false;
    case Some(json) =>
      match ParseJson(json)
      case None => return false;
      case Some(o) => return Names(o, p, s);
  }

  lemma PadsOneMore(b: string, n: nat)
    requires n > 0
    ensures b + Pads(n) == b + "=" + Pads(n - 1)
  {
  }

  lemma {:induction false} EscapedIsAscii(t: string)
    requires All(t, IsAscii)
    ensures All(EscapedAll(t), IsAscii)
  {
    if t != "" {
      EscapedIsAscii(t[1..]);
    }
  }

  lemma AllConcat(a: string, b: string, p: char -> bool)
    requires All(a, p) && All(b, p)
    ensures All(a + b, p)
  {
  }

  lemma StringifyIsAscii(v: Option<string>)
    requires AsciiId(v)
    ensures All(Stringify(v), IsAscii)
  {
    if v.Some? {
      EscapedIsAscii(v.value);
      AllConcat("\"", EscapedAll(v.value), IsAscii);
      AllConcat("\"" + EscapedAll(v.value), "\"", IsAscii);
    }
  }

  lemma CtxJsonIsAscii(p: Option<string>, s: Option<string>)
    requires AsciiId(p) && AsciiId(s)
    ensures All(CtxJson(p, s), IsAscii) && All(CtxJson(p, s), IsByte)
  {
    hide Stringify, All;
    Literals();
    var start, middle := "{\"v\":1,\"p\":", ",\"s\":";
    StringifyIsAscii(OrNull(p));
    StringifyIsAscii(OrNull(s));
    AllConcat(start, Stringify(OrNull(p)), IsAscii);
    AllConcat(start + Stringify(OrNull(p)), middle, IsAscii);
    AllConcat(start + Stringify(OrNull(p)) + middle, Stringify(OrNull(s)), IsAscii);
    AllConcat(start + Stringify(OrNull(p)) + middle + Stringify(OrNull(s)), "}", IsAscii);
    AsciiIsBytes(CtxJson(p, s));
  }

  lemma AsciiIsBytes(s: string)
    ensures All(s, IsAscii) ==> All(s, IsByte)
  {
  }

  lemma ContextJsonIsAscii(p: Option<string>, s: Option<string>, l: Option<string>)
    requires AsciiId(p) && AsciiId(s) && AsciiId(l)
    ensures All(ContextJson(p, s, l), IsByte)
  {
    hide Stringify, All;
    Literals();
    var start, middle, end := "{\"v\":2,\"p\":", ",\"s\":", ",\"l\":";
    StringifyIsAscii(OrNull(p));
    StringifyIsAscii(OrNull(s));
    StringifyIsAscii(OrNull(l));
    AllConcat(start, Stringify(OrNull(p)), IsAscii);
    AllConcat(start + Stringify(OrNull(p)), middle, IsAscii);
    AllConcat(start + Stringify(OrNull(p)) + middle, Stringify(OrNull(s)), IsAscii);
    AllConcat(end, Stringify(OrNull(l)), IsAscii);
    AllConcat(end + Stringify(OrNull(l)), "}", IsAscii);
    var front := start + Stringify(OrNull(p)) + middle + Stringify(OrNull(s));
    AllConcat(front, end + Stringify(OrNull(l)) + "}", IsAscii);
    var json := ContextJson(p, s, l);
    assert json == front + (end + Stringify(OrNull(l)) + "}");
    AsciiIsBytes(json);
  }

  lemma Literals()
    ensures All("{\"v\":1,\"p\":", IsAscii) && All("{\"v\":2,\"p\":", IsAscii) && All("}", IsAscii)
    ensures All(",\"s\":", IsAscii) && All(",\"l\":", IsAscii)
  {
  }

  // ---- padding ----

  /** The text without its padding. */
  function Core(s: string): string
    requires All(s, IsByte)
  {
    if s == "" then ""
    else
      var a := s[0] as int;
      if |s| == 1 then [ToChar(a / 4), ToChar(a % 4 * 16)]
      else
        var b := s[1] as int;
        if |s| == 2 then [ToChar(a / 4), ToChar(a % 4 * 16 + b / 16), ToChar(b % 16 * 4)]
        else
          var c := s[2] as int;
          [ToChar(a / 4), ToChar(a % 4 * 16 + b / 16), ToChar(b % 16 * 4 + c / 64), ToChar(c % 64)] + Core(s[3..])
  }

  lemma {:induction false} EncodeIsPaddedCore(s: string)
    requires All(s, IsByte)
    ensures Encode(s) == Padded(Core(s))
    ensures |Core(s)| % 4 != 1 && All(Core(s), IsSextet)
  {
    hide ToChar, IsSextet;
    if |s| > 2 {
      EncodeIsPaddedCore(s[3..]);
      var four := FirstGroup(s);
      PaddedAfter(four, Core(s[3..]));
    }
  }

  /** A whole group of three bytes gives the same four characters either way. */
  lemma FirstGroup(s: string) returns (four: string)
    requires All(s, IsByte) && |s| > 2
    ensures |four| == 4 && All(four, IsSextet)
    ensures Encode(s) == four + Encode(s[3..]) && Core(s) == four + Core(s[3..])
  {
    hide IsSextet;
    four := Encode(s)[..4];
  }

  lemma PaddedAfter(four: string, core: string)
    requires |four| == 4
    ensures |four + core| % 4 == |core| % 4 && Padded(four + core) == four + Padded(core)
  {
  }

  lemma SextetChars(c: char)
    requires IsSextet(c)
    ensures PlainChar(UrlChar(c)) == c && UrlChar(c) != '=' && c != '=' && !AtobSpace(c)
  {
  }

  /** Stripping the padding and restoring it by length alone is exact, through the URL-safe alphabet and
      back; and the stripped length is never 1 modulo 4. */
  lemma PaddingRestored(s: string)
    requires All(s, IsByte)
    ensures var stripped := Unpadded(MapChars(Encode(s), UrlChar));
      |stripped| % 4 != 1 && Padded(MapChars(stripped, PlainChar)) == Encode(s)
  {
    hide IsSextet, UrlChar, PlainChar, AtobSpace;
    EncodeIsPaddedCore(s);
    var core := Core(s);
    var pads := Pads((4 - |core| % 4) % 4);
    forall i | 0 <= i < |core| ensures PlainChar(UrlChar(core[i])) == core[i] && UrlChar(core[i]) != '=' {
      SextetChars(core[i]);
    }
    assert UrlChar('=') == '=' by { PadIsPad(); }
    assert MapChars(Encode(s), UrlChar) == MapChars(core, UrlChar) + pads;
    StripRightPadded(MapChars(core, UrlChar), pads, IsPad);
    assert MapChars(MapChars(core, UrlChar), PlainChar) == core;
  }

  lemma PadIsPad()
    ensures UrlChar('=') == '='
  {
  }

  // ---- base64 round trip ----

  lemma {:induction false} DecodeCore(s: string)
    requires All(s, IsByte)
    ensures |Core(s)| % 4 != 1 && All(Core(s), IsSextet) && DecodeSextets(Core(s)) == s
  {
    hide IsSextet, ToChar, FromChar;
    EncodeIsPaddedCore(s);
    if |s| > 2 {
      DecodeCore(s[3..]);
      DecodeGroup(s);
    } else if |s| == 2 {
      Group(s[0] as int, s[1] as int, 0);
      assert s == [s[0], s[1]];
    } else if |s| == 1 {
      Group(s[0] as int, 0, 0);
      assert s == [s[0]];
    }
  }

  lemma DecodeGroup(s: string)
    requires All(s, IsByte) && |s| > 2
    requires |Core(s[3..])| % 4 != 1 && All(Core(s[3..]), IsSextet) && DecodeSextets(Core(s[3..])) == s[3..]
    requires |Core(s)| % 4 != 1 && All(Core(s), IsSextet)
    ensures DecodeSextets(Core(s)) == s
  {
    hide IsSextet, ToChar, FromChar;
    var t := Core(s);
    assert t[4..] == Core(s[3..]);
    Group(s[0] as int, s[1] as int, s[2] as int);
    assert s == [s[0], s[1], s[2]] + s[3..];
  }

  /** Three bytes survive being cut into four sextets and put together again. */
  lemma Group(a: int, b: int, c: int)
    requires 0 <= a < 256 && 0 <= b < 256 && 0 <= c < 256
    ensures a / 4 * 4 + (a % 4 * 16 + b / 16) / 16 == a
    ensures (a % 4 * 16 + b / 16) % 16 * 16 + (b % 16 * 4 + c / 64) / 4 == b
    ensures (b % 16 * 4 + c / 64) % 4 * 64 + c % 64 == c
  {
  }

  lemma {:induction false} WithoutNothing(s: string, p: char -> bool)
    requires forall i :: 0 <= i < |s| ==> !p(s[i])
    ensures Without(s, p) == s
  {
    if s != "" {
      WithoutNothing(s[..|s| - 1], p);
      assert s == s[..|s| - 1] + [s[|s| - 1]];
    }
  }

  lemma DropPads(core: string, n: nat)
    requires n <= 2 && (core != "" ==> core[|core| - 1] != '=')
    ensures DropTwoPads(core + Pads(n)) == core
  {
    var e := core + Pads(n);
    assert e[..|core|] == core;
  }

  lemma CoreHasNoPads(s: string, i: nat)
    requires All(s, IsByte) && i < |Encode(s)|
    ensures !AtobSpace(Encode(s)[i]) && (i < |Core(s)| ==> Encode(s)[i] == Core(s)[i] != '=')
  {
    hide IsSextet, AtobSpace, Encode, Core;
    EncodeIsPaddedCore(s);
    if i < |Core(s)| { SextetChars(Core(s)[i]); } else { PadIsNoSpace(); }
  }

  /** `atob` reads back what `Buffer` encoded. */
  lemma AtobInvertsEncode(s: string)
    requires All(s, IsByte)
    ensures Atob(Encode(s)) == Some(s)
  {
    hide IsSextet, AtobSpace, DecodeSextets, Encode, Core, Without, DropTwoPads, Pads;
    EncodeIsPaddedCore(s);
    DecodeCore(s);
    var e, core := Encode(s), Core(s);
    forall i | 0 <= i < |e| ensures !AtobSpace(e[i]) && (i < |core| ==> e[i] == core[i] != '=') { CoreHasNoPads(s, i); }
    WithoutNothing(e, AtobSpace);
    PaddedLength(core);
    DropPads(core, (4 - |core| % 4) % 4);
    if core != "" { assert core[|core| - 1] == e[|core| - 1]; }
  }

  lemma PaddedLength(core: string)
    ensures |Padded(core)| % 4 == 0
  {
  }

  lemma PadIsNoSpace()
    ensures !AtobSpace('=')
  {
  }

  // ---- base64 as RFC 4648 lays it out ----

  /** The URL-safe alphabet (table 2). */
  lemma UrlAlphabet(i: nat)
    requires i < 64
    ensures i < 26 ==> UrlChar(ToChar(i)) == ToChar(i) == 'A' + i as char
    ensures 26 <= i < 52 ==> UrlChar(ToChar(i)) == ToChar(i) == 'a' + (i - 26) as char
    ensures 52 <= i < 62 ==> UrlChar(ToChar(i)) == ToChar(i) == '0' + (i - 52) as char
    ensures i == 62 ==> ToChar(i) == '+' && UrlChar(ToChar(i)) == '-'
    ensures i == 63 ==> ToChar(i) == '/' && UrlChar(ToChar(i)) == '_'
  {
  }

  function ByteAt(s: string, i: nat): int {
    if i < |s| then s[i] as int else 0
  }

  function SextetAt(e: string, i: nat): int {
    if i < |e| && IsSextet(e[i]) then FromChar(e[i]) else 0
  }

  /** The `k`-th three bytes and the `k`-th four characters are the same 24 bits; missing bytes are zero, and
      a pad stands for each character that only missing bytes would give. */
  ghost predicate SameBits(s: string, e: string, k: nat) {
    && 4 * k + 4 <= |e|
    && ByteAt(s, 3 * k) * 65536 + ByteAt(s, 3 * k + 1) * 256 + ByteAt(s, 3 * k + 2)
      == SextetAt(e, 4 * k) * 262144 + SextetAt(e, 4 * k + 1) * 4096
         + SextetAt(e, 4 * k + 2) * 64 + SextetAt(e, 4 * k + 3)
    && IsSextet(e[4 * k]) && IsSextet(e[4 * k + 1])
    && (if 3 * k + 1 < |s| then IsSextet(e[4 * k + 2]) else e[4 * k + 2] == '=')
    && (if 3 * k + 2 < |s| then IsSextet(e[4 * k + 3]) else e[4 * k + 3] == '=')
  }

  lemma FirstBits(s: string)
    requires All(s, IsByte) && s != ""
    ensures SameBits(s, Encode(s), 0)
  {
    hide IsSextet, ToChar, FromChar;
    PadIsNoSextet();
    var a, b, c := ByteAt(s, 0), ByteAt(s, 1), ByteAt(s, 2);
    var e := Encode(s);
    TwentyFour(a, b, c);
    assert e[0] == ToChar(a / 4) && e[1] == ToChar(a % 4 * 16 + b / 16);
    assert |s| > 1 ==> e[2] == ToChar(b % 16 * 4 + c / 64);
    assert |s| > 2 ==> e[3] == ToChar(c % 64);
    assert SextetAt(e, 0) == a / 4 && SextetAt(e, 1) == a % 4 * 16 + b / 16;
    assert SextetAt(e, 2) == b % 16 * 4 + c / 64 && SextetAt(e, 3) == c % 64;
  }

  lemma TwentyFour(a: int, b: int, c: int)
    ensures a * 65536 + b * 256 + c
      == a / 4 * 262144 + (a % 4 * 16 + b / 16) * 4096 + (b % 16 * 4 + c / 64) * 64 + c % 64
  {
  }

  lemma PadIsNoSextet()
    ensures !IsSextet('=')
  {
  }

  /** Encoding keeps the bits, group by group. */
  lemma {:induction false} EncodeKeepsBits(s: string, k: nat)
    requires All(s, IsByte) && 3 * k < |s|
    ensures |Encode(s)| == (|s| + 2) / 3 * 4 && SameBits(s, Encode(s), k)
    decreases |s|
  {
    hide SameBits, IsSextet, ToChar, FromChar;
    FirstBits(s);
    EncodeLength(s);
    if k > 0 {
      EncodeKeepsBits(s[3..], k - 1);
      BitsShift(s, Encode(s), k);
    }
  }

  lemma {:induction false} EncodeLength(s: string)
    requires All(s, IsByte)
    ensures |Encode(s)| == (|s| + 2) / 3 * 4 && (|s| > 3 ==> Encode(s)[4..] == Encode(s[3..]))
  {
    hide ToChar, Encode, Core;
    if |s| > 2 {
      EncodeLength(s[3..]);
      var four := FirstGroup(s);
    } else {
      ShortLength(s);
    }
  }

  lemma ShortLength(s: string)
    requires All(s, IsByte) && |s| <= 2
    ensures |Encode(s)| == (|s| + 2) / 3 * 4
  {
    hide ToChar;
  }

  lemma BitsShift(s: string, e: string, k: nat)
    requires |s| > 3 && |e| > 4 && k > 0 && SameBits(s[3..], e[4..], k - 1)
    ensures SameBits(s, e, k)
  {
    hide IsSextet, FromChar;
    forall i: nat ensures ByteAt(s[3..], i) == ByteAt(s, i + 3) {}
    forall i: nat ensures SextetAt(e[4..], i) == SextetAt(e, i + 4) {}
    var k' := k - 1;
    assert 3 * k' + 3 == 3 * k && 4 * k' + 4 == 4 * k;
    assert ByteAt(s[3..], 3 * k') == ByteAt(s, 3 * k) && ByteAt(s[3..], 3 * k' + 1) == ByteAt(s, 3 * k + 1);
    assert ByteAt(s[3..], 3 * k' + 2) == ByteAt(s, 3 * k + 2);
    assert SextetAt(e[4..], 4 * k') == SextetAt(e, 4 * k) && SextetAt(e[4..], 4 * k' + 1) == SextetAt(e, 4 * k + 1);
    assert SextetAt(e[4..], 4 * k' + 2) == SextetAt(e, 4 * k + 2);
    assert SextetAt(e[4..], 4 * k' + 3) == SextetAt(e, 4 * k + 3);
  }

  lemma {:induction false} WithoutConcat(a: string, b: string, p: char -> bool)
    ensures Without(a + b, p) == Without(a, p) + Without(b, p)
  {
    if b == "" {
      assert a + b == a;
    } else {
      var front := b[..|b| - 1];
      assert (a + b)[..|a + b| - 1] == a + front;
      WithoutConcat(a, front, p);
    }
  }

  /** White space anywhere in its text is nothing to `atob`. */
  lemma AtobIgnoresSpace(a: string, c: char, b: string)
    requires c in {' ', '\t', '\n', '\U{c}', '\r'}
    ensures Atob(a + [c] + b) == Atob(a + b)
  {
    hide DropTwoPads, DecodeSextets, IsSextet;
    WithoutConcat(a + [c], b, AtobSpace);
    WithoutConcat(a, [c], AtobSpace);
    WithoutConcat(a, b, AtobSpace);
    assert [c][..0] == "" && Without([c], AtobSpace) == "";
    assert Without(a, AtobSpace) + "" == Without(a, AtobSpace);
  }

  /** Letters, digits, `+` and `/`, not one more than a multiple of four of them, with at most two pads, which
      must complete a multiple of four. */
  ghost predicate PaddedBy(text: string, n: nat) {
    && n <= 2 && n <= |text| && (n > 0 ==> |text| % 4 == 0) && (|text| - n) % 4 != 1
    && (forall i :: 0 <= i < |text| - n ==>
        'A' <= text[i] <= 'Z' || 'a' <= text[i] <= 'z' || '0' <= text[i] <= '9' || text[i] in {'+', '/'})
    && (forall i :: |text| - n <= i < |text| ==> text[i] == '=')
  }

  /** Text without white space is decoded exactly when it has that form. */
  lemma AtobAccepts(text: string)
    requires forall i :: 0 <= i < |text| ==> text[i] !in {' ', '\t', '\n', '\U{c}', '\r'}
    ensures Atob(text).Some? <==> exists n: nat :: PaddedBy(text, n)
  {
    hide DecodeSextets, IsSextet, PaddedBy, DropTwoPads;
    WithoutNothing(text, AtobSpace);
    var m := PadsOf(text);
    forall n: nat | PaddedBy(text, n) ensures n == m { OnePadding(text, n, m); }
    PaddedIsSextets(text, m);
  }

  /** How many pads are dropped. */
  lemma PadsOf(text: string) returns (m: nat)
    ensures m <= 2 && m <= |text| && (m > 0 ==> |text| % 4 == 0)
    ensures (if |text| % 4 == 0 then DropTwoPads(text) else text) == text[..|text| - m]
    ensures forall i :: |text| - m <= i < |text| ==> text[i] == '='
    ensures m > 0 ==> text[|text| - m] == '='
    ensures |text| % 4 == 0 && m < 2 && m < |text| ==> text[|text| - m - 1] != '=' || m == 1
    ensures |text| % 4 == 0 && m == 1 && |text| > 1 ==> text[|text| - 2] != '='
  {
    m := |text| - |if |text| % 4 == 0 then DropTwoPads(text) else text|;
    assert text[..|text|] == text;
  }

  lemma OnePadding(text: string, n: nat, m: nat)
    requires PaddedBy(text, n)
    requires m <= 2 && m <= |text| && (m > 0 ==> |text| % 4 == 0)
    requires forall i :: |text| - m <= i < |text| ==> text[i] == '='
    requires m > 0 ==> text[|text| - m] == '='
    requires |text| % 4 == 0 && m < 2 && m < |text| ==> text[|text| - m - 1] != '=' || m == 1
    requires |text| % 4 == 0 && m == 1 && |text| > 1 ==> text[|text| - 2] != '='
    ensures n == m
  {
  }

  lemma PaddedIsSextets(text: string, m: nat)
    requires m <= 2 && m <= |text| && (m > 0 ==> |text| % 4 == 0)
    requires forall i :: |text| - m <= i < |text| ==> text[i] == '='
    ensures PaddedBy(text, m) <==> |text[..|text| - m]| % 4 != 1 && All(text[..|text| - m], IsSextet)
  {
  }

  // ---- any link ----

  /** What JavaScript counts as false: null, false, zero, also by underflow (at most half of 2 ** -1074), and
      the empty text. */
  ghost predicate CountsAsNone(t: Tree)
    requires Legal(t)
  {
    match t
    case Word(w) => w == "null" || w == "false"
    case Number(_, _, _, _) =>
      var digits, scale := NumberValue(t).digits, NumberValue(t).scale;
      digits == 0 || (scale < 0 && digits * Pow(2, 1075) <= Pow(10, -scale))
    case Quoted(ps) => ps == []
    case _ => false
  }

  /** Member `key` of a written value: the last one of that name; what is no object has none. */
  function MemberOf(t: Tree, key: string): Option<Tree> {
    if t.Object? then LastMember(t.members, Units(key)) else None
  }

  /** The member is the text of the expected id, or for no id it is missing or counts as none. */
  ghost predicate Gives(member: Option<Tree>, expected: Option<string>)
    requires member.Some? ==> Legal(member.value)
  {
    match expected
    case None => member.None? || CountsAsNone(member.value)
    case Some(id) => id != "" && member.Some? && member.value.Quoted? && PiecesUnits(member.value.pieces) == Units(id)
  }

  lemma MemberIsLegal(t: Tree, key: string)
    requires Legal(t)
    ensures MemberOf(t, key).Some? ==> Legal(MemberOf(t, key).value)
  {
    hide Units, Value;
    if t.Object? { FilledLast(t.members, map[], Units(key)); }
  }

  lemma FalsyExactly(t: Tree)
    requires Legal(t)
    ensures Falsy(Value(t)) <==> CountsAsNone(t)
  {
    hide Pow, LegalMembers, LegalElements, Filled, DigitsValue, ExponentValue;
    if t.Quoted? { NoPieces(t.pieces); }
  }

  lemma NoPieces(ps: seq<Piece>)
    requires LegalPieces(ps)
    ensures PiecesUnits(ps) == [] <==> ps == []
  {
    if ps != [] { assert LegalPiece(ps[0]); }
  }

  /** Reading a member off the parsed value is reading it off the text. */
  lemma PropertyGives(t: Tree, key: string, expected: Option<string>)
    requires Legal(t)
    ensures MemberOf(t, key).Some? ==> Legal(MemberOf(t, key).value)
    ensures IsId(Property(Value(t), key), expected) <==> Gives(MemberOf(t, key), expected)
  {
    hide Units, Falsy, CountsAsNone, PiecesUnits, LegalPieces;
    MemberIsLegal(t, key);
    if t.Object? { FilledLast(t.members, map[], Units(key)); }
    assert t.EmptyObject? ==> Value(t) == JObject(map[]);
    var member := MemberOf(t, key);
    if member.Some? {
      FalsyExactly(member.value);
      MemberIs(member.value, expected);
    } else {
      assert Property(Value(t), key) == JNull;
      NullIsFalsy();
    }
  }

  lemma NullIsFalsy()
    ensures Falsy(JNull)
  {
  }

  lemma MemberIs(v: Tree, expected: Option<string>)
    requires Legal(v)
    ensures IsId(Value(v), expected) <==> Gives(Some(v), expected)
  {
    hide Units, PiecesUnits, LegalPieces, CountsAsNone, Falsy;
    FalsyExactly(v);
    if expected.Some? && v.Quoted? && PiecesUnits(v.pieces) == Units(expected.value) {
      NoPieces(v.pieces);
      TextIsSomething(v);
      NoUnits();
      if expected.value != "" { UnitsNotEmpty(expected.value); }
    }
  }

  lemma TextIsSomething(v: Tree)
    requires Legal(v) && v.Quoted?
    ensures CountsAsNone(v) <==> v.pieces == []
  {
  }

  /** A link that carries any JSON text, whatever other members, white space and escapes it has, is accepted
      for exactly the ids its members `p` and `s` give; `null` itself refuses to be asked. */
  lemma AnyLinkAccepted(json: string, lead: string, t: Tree, tail: string, p: Option<string>, s: Option<string>)
    requires All(json, IsByte) && Spells(json, lead, t, tail)
    ensures Accepts(LinkTo(json), p, s) <==> NamedBy(t, p, s)
  {
    hide ParseJson, Spells, Names, NamedBy;
    SpelledNames(json, lead, t, tail, p, s);
    LinkDecodes(json);
  }

  /** Any hash: it is accepted when it is a link whose characters, put back into the plain alphabet and padded,
      decode to a JSON text that gives the two ids, and otherwise not. */
  lemma AcceptsExactly(h: string, p: Option<string>, s: Option<string>)
    ensures Accepts(h, p, s) <==>
      |h| >= 5 && h[..5] == "#ctx=" && exists json, lead, t, tail ::
        Atob(Padded(MapChars(h[5..], PlainChar))) == Some(json) && Spells(json, lead, t, tail) && NamedBy(t, p, s)
  {
    hide Atob, ParseJson, Padded, MapChars, Spells, Names, NamedBy;
    assert At(h, 0, PREFIX) <==> |h| >= 5 && h[..5] == "#ctx=" by { if |h| >= 5 { assert h[0..5] == h[..5]; } }
    if At(h, 0, PREFIX) && Atob(Padded(MapChars(h[5..], PlainChar))).Some? {
      var json := Atob(Padded(MapChars(h[5..], PlainChar))).value;
      forall lead, t, tail | Spells(json, lead, t, tail)
        ensures ParseJson(json).Some? && (Names(ParseJson(json).value, p, s) <==> NamedBy(t, p, s))
      {
        SpelledNames(json, lead, t, tail, p, s);
      }
      if ParseJson(json).Some? { ParseExactly(json, ParseJson(json).value); }
    }
  }

  /** The value is not `null`, and its members give the ids. */
  ghost predicate NamedBy(t: Tree, p: Option<string>, s: Option<string>) {
    && Legal(t) && t != Word("null")
    && (MemberOf(t, "p").Some? ==> Legal(MemberOf(t, "p").value)) && Gives(MemberOf(t, "p"), p)
    && (MemberOf(t, "s").Some? ==> Legal(MemberOf(t, "s").value)) && Gives(MemberOf(t, "s"), s)
  }

  lemma SpelledNames(json: string, lead: string, t: Tree, tail: string, p: Option<string>, s: Option<string>)
    requires Spells(json, lead, t, tail)
    ensures ParseJson(json).Some? && (Names(ParseJson(json).value, p, s) <==> NamedBy(t, p, s))
  {
    hide ParseJson, Legal, Value, Blank, IsId, Property, Gives, MemberOf, Print;
    SpelledParses(json, lead, t, tail);
    PropertyGives(t, "p", p);
    PropertyGives(t, "s", s);
    OnlyNullIsNull(t);
  }

  /** A link that carries no JSON is accepted for no ids. */
  lemma NoJsonNoLink(json: string, p: Option<string>, s: Option<string>)
    requires All(json, IsByte) && forall lead, t, tail :: !Spells(json, lead, t, tail)
    ensures !Accepts(LinkTo(json), p, s)
  {
    hide ParseJson, Spells, Names;
    LinkDecodes(json);
    if ParseJson(json).Some? { ParseExactly(json, ParseJson(json).value); }
  }

  lemma OnlyNullIsNull(t: Tree)
    requires Legal(t)
    ensures Value(t).JNull? <==> t == Word("null")
  {
  }

  lemma LinkDecodes(json: string)
    requires All(json, IsByte)
    ensures At(LinkTo(json), 0, PREFIX) && Atob(Padded(MapChars(LinkTo(json)[5..], PlainChar))) == Some(json)
  {
    hide Atob, Encode, MapChars, Padded, Unpadded;
    var stripped := Unpadded(MapChars(Encode(json), UrlChar));
    PaddingRestored(json);
    AtobInvertsEncode(json);
    var h := LinkTo(json);
    assert h[5..] == stripped && h[0..5] == PREFIX;
  }

  // ---- the link's own JSON ----

  function IdTree(v: Option<string>): Tree {
    if v.None? then Word("null") else Quoted(PiecesFor(v.value))
  }

  /** `"k":value`, and what follows. */
  function Entry(key: char, value: Tree, more: Option<Members>): Members {
    Members("", [Plain(key)], "", "", value, "", more)
  }

  function One(digit: string): Tree {
    Number(false, digit, None, None)
  }

  lemma IdTreeIs(v: Option<string>)
    ensures Legal(IdTree(v)) && Print(IdTree(v)) == Stringify(v)
    ensures Value(IdTree(v)) == ValueOf(v)
  {
    if v.Some? { PiecesForText(v.value); }
  }

  function ValueOf(v: Option<string>): JValue {
    if v.None? then JNull else JString(Units(v.value))
  }

  /** An ASCII id is told from every other, and an empty one counts as none. */
  lemma IdTreeGives(v: Option<string>, expected: Option<string>)
    requires AsciiId(v) && Legal(IdTree(OrNull(v)))
    ensures Gives(Some(IdTree(OrNull(v))), expected) <==> expected == OrNull(v)
  {
    hide Units, PiecesUnits, LegalPieces, PieceFor;
    if OrNull(v).Some? {
      PiecesForText(v.value);
      if expected.Some? { AsciiUnits(v.value, expected.value); }
    }
  }

  lemma OneDigit(digit: string)
    requires |digit| == 1 && IsDigit(digit[0])
    ensures All(digit, IsDigit) && DigitsValue(digit) == digit[0] as int - '0' as int
  {
    assert digit[..0] == "" && DigitsValue("") == 0;
  }

  lemma OneTree(digit: string)
    requires digit == "1" || digit == "2"
    ensures Legal(One(digit)) && Print(One(digit)) == digit
    ensures Value(One(digit)) == JNumber(digit[0] as int - '0' as int, 0)
  {
    hide DigitsValue;
    var t := One(digit);
    OneDigit(digit);
    assert digit + "" == digit;
    assert "" + (digit + ("" + "")) == digit;
  }

  lemma EntryIs(key: char, value: Tree, more: Option<Members>)
    requires 'a' <= key <= 'z' && Legal(value) && (more.Some? ==> LegalMembers(more.value))
    ensures LegalMembers(Entry(key, value, more))
    ensures PiecesUnits([Plain(key)]) == Units([key])
    ensures PrintMembers(Entry(key, value, more)) ==
      Written(key, Print(value), match more case None => "}" case Some(rest) => "," + PrintMembers(rest))
  {
    hide Legal, Print;
    var ms := Entry(key, value, more);
    assert [Plain(key)][1..] == [] && PrintPieces([Plain(key)]) == [key];
    assert [key][1..] == "" && Units("") == [] && PiecesUnits([]) == [];
    assert PiecesUnits([Plain(key)]) == UnitsOf(key) + [] == Units([key]);
    var last := match more case None => "}" case Some(rest) => "," + PrintMembers(rest);
    EntryText(ms, Print(value), last);
  }

  lemma EntryText(ms: Members, value: string, last: string)
    requires ms.before == ms.mid == ms.gap == ms.after == ""
    ensures MemberText(ms, value, last) == "\"" + PrintPieces(ms.key) + "\":" + value + last
  {
    hide PrintPieces;
  }

  function CtxTree(p: Option<string>, s: Option<string>): Tree {
    Object(Entry('v', One("1"), Some(
      Entry('p', IdTree(OrNull(p)), Some(Entry('s', IdTree(OrNull(s)), None))))))
  }

  function ContextTree(p: Option<string>, s: Option<string>, l: Option<string>): Tree {
    Object(Entry('v', One("2"), Some(
      Entry('p', IdTree(OrNull(p)), Some(Entry('s', IdTree(OrNull(s)), Some(Entry('l', IdTree(OrNull(l)), None))))))))
  }

  lemma KeysApart()
    ensures Units("v") != Units("p") && Units("v") != Units("s") && Units("p") != Units("s")
    ensures Units("l") != Units("p") && Units("l") != Units("s") && Units("l") != Units("v")
  {
    AsciiUnits("v", "p");
    AsciiUnits("v", "s");
    AsciiUnits("p", "s");
    AsciiUnits("l", "p");
    AsciiUnits("l", "s");
    AsciiUnits("l", "v");
  }

  /** A printed member followed by the rest of the text. */
  function Written(key: char, value: string, rest: string): string {
    "\"" + [key] + "\":" + value + rest
  }

  lemma CtxPieces(a: string, b: string)
    ensures "{\"v\":1,\"p\":" + a + ",\"s\":" + b + "}" ==
      "{" + Written('v', "1", "," + Written('p', a, "," + Written('s', b, "}")))
  {
    var third := ",\"s\":" + b + "}";
    assert third == "," + Written('s', b, "}");
    var second := ",\"p\":" + a + third;
    assert second == "," + Written('p', a, third);
    assert "{\"v\":1,\"p\":" == "{" + ("\"" + ['v'] + "\":" + "1") + ",\"p\":";
    assert "{\"v\":1,\"p\":" + a + ",\"s\":" + b + "}" == "{\"v\":1,\"p\":" + a + third;
  }

  lemma ContextPieces(a: string, b: string, c: string)
    ensures "{\"v\":2,\"p\":" + a + ",\"s\":" + b + ",\"l\":" + c + "}" ==
      "{" + Written('v', "2", "," + Written('p', a, "," + Written('s', b, "," + Written('l', c, "}"))))
  {
    var fourth := ",\"l\":" + c + "}";
    assert fourth == "," + Written('l', c, "}");
    var third := ",\"s\":" + b + fourth;
    assert third == "," + Written('s', b, fourth);
    var second := ",\"p\":" + a + third;
    assert second == "," + Written('p', a, third);
    assert "{\"v\":2,\"p\":" == "{" + ("\"" + ['v'] + "\":" + "2") + ",\"p\":";
    assert "{\"v\":2,\"p\":" + a + ",\"s\":" + b + ",\"l\":" + c + "}" == "{\"v\":2,\"p\":" + a + third;
  }

  lemma CtxSpelled(p: Option<string>, s: Option<string>)
    ensures Spells(CtxJson(p, s), "", CtxTree(p, s), "") && LegalMembers(CtxTree(p, s).members)
  {
    hide Legal, LegalMembers, Print, PrintMembers, Stringify, IdTree, One, Spells, Entry, Written;
    IdTreeIs(OrNull(p));
    IdTreeIs(OrNull(s));
    OneTree("1");
    var third := Entry('s', IdTree(OrNull(s)), None);
    var second := Entry('p', IdTree(OrNull(p)), Some(third));
    EntryIs('s', IdTree(OrNull(s)), None);
    EntryIs('p', IdTree(OrNull(p)), Some(third));
    EntryIs('v', One("1"), Some(second));
    ObjectIs(Entry('v', One("1"), Some(second)));
    CtxPieces(Stringify(OrNull(p)), Stringify(OrNull(s)));
  }

  lemma ObjectIs(ms: Members)
    requires LegalMembers(ms)
    ensures Spells("{" + PrintMembers(ms), "", Object(ms), "")
  {
    hide LegalMembers, PrintMembers;
    var text := "{" + PrintMembers(ms);
    assert "" + (text + "") == text;
  }

  lemma ContextSpelled(p: Option<string>, s: Option<string>, l: Option<string>)
    ensures Spells(ContextJson(p, s, l), "", ContextTree(p, s, l), "")
  {
    hide Legal, LegalMembers, Print, PrintMembers, Stringify, IdTree, One, Spells, Entry, Written;
    IdTreeIs(OrNull(p));
    IdTreeIs(OrNull(s));
    IdTreeIs(OrNull(l));
    OneTree("2");
    var fourth := Entry('l', IdTree(OrNull(l)), None);
    var third := Entry('s', IdTree(OrNull(s)), Some(fourth));
    var second := Entry('p', IdTree(OrNull(p)), Some(third));
    EntryIs('l', IdTree(OrNull(l)), None);
    EntryIs('s', IdTree(OrNull(s)), Some(fourth));
    EntryIs('p', IdTree(OrNull(p)), Some(third));
    EntryIs('v', One("2"), Some(second));
    ObjectIs(Entry('v', One("2"), Some(second)));
    ContextPieces(Stringify(OrNull(p)), Stringify(OrNull(s)), Stringify(OrNull(l)));
  }

  lemma LastOfEntry(key: char, value: Tree, more: Option<Members>, k: string)
    requires key in {'v', 'p', 's', 'l'}
    ensures var later := if more.Some? then LastMember(more.value, Units(k)) else None;
      LastMember(Entry(key, value, more), Units(k)) ==
        if later.Some? then later else if Units([key]) == Units(k) then Some(value) else None
  {
    hide Units, PiecesUnits;
    KeyUnits();
  }

  lemma MembersOfLinks(p: Option<string>, s: Option<string>, l: Option<string>)
    ensures MemberOf(CtxTree(p, s), "p") == MemberOf(ContextTree(p, s, l), "p") == Some(IdTree(OrNull(p)))
    ensures MemberOf(CtxTree(p, s), "s") == MemberOf(ContextTree(p, s, l), "s") == Some(IdTree(OrNull(s)))
  {
    hide Units, IdTree, LastMember, Entry;
    var fourth := Entry('l', IdTree(OrNull(l)), None);
    KeysApart();
    LastOfEntry('l', IdTree(OrNull(l)), None, "p");
    LastOfEntry('l', IdTree(OrNull(l)), None, "s");
    MembersAre("1", p, s, None);
    MembersAre("2", p, s, Some(fourth));
  }

  lemma MembersAre(digit: string, p: Option<string>, s: Option<string>, more: Option<Members>)
    requires more.Some? ==> LastMember(more.value, Units("p")).None? && LastMember(more.value, Units("s")).None?
    ensures var t := Object(Entry('v', One(digit), Some(
        Entry('p', IdTree(OrNull(p)), Some(Entry('s', IdTree(OrNull(s)), more))))));
      MemberOf(t, "p") == Some(IdTree(OrNull(p))) && MemberOf(t, "s") == Some(IdTree(OrNull(s)))
  {
    hide Units, IdTree, One, LastMember, Entry;
    KeysApart();
    var third := Entry('s', IdTree(OrNull(s)), more);
    var second := Entry('p', IdTree(OrNull(p)), Some(third));
    LastOfEntry('s', IdTree(OrNull(s)), more, "p");
    LastOfEntry('s', IdTree(OrNull(s)), more, "s");
    LastOfEntry('p', IdTree(OrNull(p)), Some(third), "p");
    LastOfEntry('p', IdTree(OrNull(p)), Some(third), "s");
    LastOfEntry('v', One(digit), Some(second), "p");
    LastOfEntry('v', One(digit), Some(second), "s");
  }

  lemma KeyUnits()
    ensures PiecesUnits([Plain('v')]) == Units("v") && PiecesUnits([Plain('p')]) == Units("p")
    ensures PiecesUnits([Plain('s')]) == Units("s") && PiecesUnits([Plain('l')]) == Units("l")
  {
    hide Units, PiecesUnits;
    var t := Word("null");
    EntryIs('v', t, None);
    EntryIs('p', t, None);
    EntryIs('s', t, None);
    EntryIs('l', t, None);
  }

  // ---- main results ----

  /** The link's JSON parses back to the two ids it was made from. */
  lemma ParsePrintedCtx(p: Option<string>, s: Option<string>)
    ensures ParseJson(CtxJson(p, s)) == Some(JObject(
      map[Units("v") := JNumber(1, 0), Units("p") := ValueOf(OrNull(p)), Units("s") := ValueOf(OrNull(s))]))
  {
    hide ParseJson, Units, PiecesUnits, Value, Legal, LegalMembers, Print, CtxJson, IdTree, One;
    CtxSpelled(p, s);
    SpelledParses(CtxJson(p, s), "", CtxTree(p, s), "");
    IdTreeIs(OrNull(p));
    IdTreeIs(OrNull(s));
    OneTree("1");
    KeyUnits();
    CtxFilled(CtxTree(p, s).members);
  }

  lemma CtxFilled(ms: Members)
    requires LegalMembers(ms) && ms.more.Some? && ms.more.value.more.Some? && ms.more.value.more.value.more.None?
    ensures Legal(Object(ms)) && Legal(ms.value) && Legal(ms.more.value.value) && Legal(ms.more.value.more.value.value)
    ensures Value(Object(ms)) == JObject(map[
      PiecesUnits(ms.key) := Value(ms.value), PiecesUnits(ms.more.value.key) := Value(ms.more.value.value),
      PiecesUnits(ms.more.value.more.value.key) := Value(ms.more.value.more.value.value)])
  {
    hide PiecesUnits, Value;
    var second := ms.more.value;
    var third := second.more.value;
    ObjectValue(ms);
    var o1 := map[PiecesUnits(ms.key) := Value(ms.value)];
    var o2 := o1[PiecesUnits(second.key) := Value(second.value)];
    assert Filled(ms, map[]) == Filled(second, o1);
    assert Filled(second, o1) == Filled(third, o2);
  }

  lemma ObjectValue(ms: Members)
    requires LegalMembers(ms)
    ensures Legal(Object(ms)) && Value(Object(ms)) == JObject(Filled(ms, map[]))
  {
  }

  /** A link is accepted for exactly the ids it was made from, an empty id counting as none. */
  lemma LinkNamesItsIds(p: Option<string>, s: Option<string>, p': Option<string>, s': Option<string>)
    requires AsciiId(p) && AsciiId(s)
    ensures Accepts(EncodeCtx(p, s), p', s') <==> p' == OrNull(p) && s' == OrNull(s)
  {
    hide Accepts, CtxJson, MemberOf, IdTree, Gives, Legal, LinkTo;
    CtxJsonIsAscii(p, s);
    CtxSpelled(p, s);
    MembersOfLinks(p, s, None);
    AnyLinkAccepted(CtxJson(p, s), "", CtxTree(p, s), "", p', s');
    IdTreeIs(OrNull(p));
    IdTreeIs(OrNull(s));
    IdTreeGives(p, p');
    IdTreeGives(s, s');
  }

  /** So is the page's own link of the second version, whatever league it names. */
  lemma SecondVersionNamesItsIds(
    p: Option<string>, s: Option<string>, l: Option<string>, p': Option<string>, s': Option<string>)
    requires AsciiId(p) && AsciiId(s) && AsciiId(l)
    ensures All(ContextJson(p, s, l), IsByte)
    ensures Accepts(LinkTo(ContextJson(p, s, l)), p', s') <==> p' == OrNull(p) && s' == OrNull(s)
  {
    hide Accepts, ContextJson, MemberOf, IdTree, Gives, Legal, LinkTo;
    ContextJsonIsAscii(p, s, l);
    ContextSpelled(p, s, l);
    MembersOfLinks(p, s, l);
    AnyLinkAccepted(ContextJson(p, s, l), "", ContextTree(p, s, l), "", p', s');
    IdTreeIs(OrNull(p));
    IdTreeIs(OrNull(s));
    IdTreeGives(p, p');
    IdTreeGives(s, s');
  }

  /** Different selections have different links. */
  lemma LinksAreInjective(p: Option<string>, s: Option<string>, p': Option<string>, s': Option<string>)
    requires AsciiId(p) && AsciiId(s) && AsciiId(p') && AsciiId(s')
    ensures EncodeCtx(p, s) == EncodeCtx(p', s') <==> OrNull(p) == OrNull(p') && OrNull(s) == OrNull(s')
  {
    hide Accepts, Encode, MapChars, Unpadded;
    LinkNamesItsIds(p, s, OrNull(p'), OrNull(s'));
    LinkNamesItsIds(p', s', OrNull(p'), OrNull(s'));
  }
}
