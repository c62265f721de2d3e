/** JSON text as `json.dumps` writes it with ASCII output; different values never share a text. */
module Json {
  import opened Common
  import opened Numerals
  import Text

  datatype Json = Null | Str(text: string) | Number(number: int) | Truth(truth: bool) | List(items: seq<Json>)
    | Object(fields: seq<Field>)

  datatype Field = Field(key: string, value: Json)

  /** A UTF-16 code unit as an escape. */
  function Unit(n: nat): (s: string)
    ensures |s| == 6 && s[0] == '\\' && s[1] == 'u' && s[2..] == Numeral(n, 16, 4)
  {
    "\\u" + Numeral(n, 16, 4)
  }

  /** The two code units of a character past the first plane. */
  function High(c: char): nat
    requires c as int >= 0x10000
  {
    0xD800 + (c as int - 0x10000) / 0x400
  }

  function Low(c: char): nat
    requires c as int >= 0x10000
  {
    0xDC00 + (c as int - 0x10000) % 0x400
  }

  function Escape(c: char): string {
    if c == '"' then "\\\""
    else if c == '\\' then "\\\\"
    else if c == '\n' then "\\n"
    else if c == '\r' then "\\r"
    else if c == '\t' then "\\t"
    else if c == 8 as char then "\\b"
    else if c == 12 as char then "\\f"
    else if ' ' <= c <= '~' then [c]
    else if c as int < 0x10000 then Unit(c as int)
    else Unit(High(c)) + Unit(Low(c))
  }

  function Decimal(n: nat): (s: string)
    ensures |s| > 0 && forall c | c in s :: IsDigit(c)
  {
    if n < 10 then [Digit(n)] else Decimal(n / 10) + [Digit(n % 10)]
  }

  predicate IsDigit(c: char) {
    '0' <= c <= '9'
  }

  // ---- Each function writes a value before the text that follows it; pad is what follows a comma or a colon ----

  function PutQuoted(s: string, rest: string): string {
    if |s| == 0 then "\"" + rest else Escape(s[0]) + PutQuoted(s[1..], rest)
  }

  function PutInteger(n: int, rest: string): string {
    if n < 0 then "-" + (Decimal(-n) + rest) else Decimal(n) + rest
  }

  function Put(pad: string, v: Json, rest: string): (r: string)
    ensures |r| > 0 && Opens(v, r[0])
  {
    match v
    case Null => "null" + rest
    case Str(s) => "\"" + PutQuoted(s, rest)
    case Number(n) => PutInteger(n, rest)
    case Truth(b) => (if b then "true" else "false") + rest
    case List(items) => "[" + PutFirst(pad, items, rest)
    case Object(fields) => "{" + PutFirstField(pad, fields, rest)
  }

  function PutFirst(pad: string, items: seq<Json>, rest: string): string {
    if |items| == 0 then "]" + rest else Put(pad, items[0], PutItems(pad, items[1..], rest))
  }

  function PutItems(pad: string, items: seq<Json>, rest: string): (r: string)
    ensures Ends(r)
  {
    if |items| == 0 then "]" + rest else "," + (pad + Put(pad, items[0], PutItems(pad, items[1..], rest)))
  }

  function PutField(pad: string, f: Field, rest: string): (r: string)
    ensures |r| > 0 && r[0] == '"'
  {
    "\"" + PutQuoted(f.key, ":" + (pad + Put(pad, f.value, rest)))
  }

  function PutFirstField(pad: string, fields: seq<Field>, rest: string): string {
    if |fields| == 0 then "}" + rest else PutField(pad, fields[0], PutFields(pad, fields[1..], rest))
  }

  function PutFields(pad: string, fields: seq<Field>, rest: string): (r: string)
    ensures Ends(r)
  {
    if |fields| == 0 then "}" + rest else "," + (pad + PutField(pad, fields[0], PutFields(pad, fields[1..], rest)))
  }

  /** `json.dumps` with its default separators. */
  function Dumps(v: Json): string {
    Put(" ", v, "")
  }

  /** `json.dumps` with separators "," and ":". */
  function CompactDumps(v: Json): string {
    Put("", v, "")
  }

  /** The first character tells the kind of the value. */
  predicate Opens(v: Json, c: char) {
    match v
    case Null => c == 'n'
    case Str(_) => c == '"'
    case Number(_) => c == '-' || IsDigit(c)
    case Truth(_) => c == 't' || c == 'f'
    case List(_) => c == '['
    case Object(_) => c == '{'
  }

  /** What may follow a value. */
  predicate Ends(s: string) {
    |s| == 0 || s[0] in {',', ']', '}'}
  }

  // ---- Reading ----

  predicate IsBlank(c: char) {
    c == ' ' || c == '\t' || c == '\n' || c == '\r'
  }

  function SkipBlanks(s: string): (r: string)
    ensures |r| <= |s|
  {
    if |s| > 0 && IsBlank(s[0]) then SkipBlanks(s[1..]) else s
  }

  function HexDigit(c: char): (d: Option<nat>)
    ensures d.Some? ==> d.value < 16
  {
    if '0' <= c <= '9' then Some(c as int - '0' as int)
    else if 'a' <= c <= 'f' then Some(c as int - 'a' as int + 10)
    else if 'A' <= c <= 'F' then Some(c as int - 'A' as int + 10)
    else None
  }

  function HexValue(s: string): Option<nat> {
    if |s| == 0 then Some(0) else
      var higher, lowest := HexValue(s[..|s| - 1]), HexDigit(s[|s| - 1]);
      if higher.Some? && lowest.Some? then Some(16 * higher.value + lowest.value) else None
  }

  /** Four hexadecimal digits, or two surrogates of four each, and the text after them. */
  function ReadUnicode(s: string): (r: Option<(char, string)>)
    ensures r.Some? ==> |r.value.1| < |s|
  {
    if |s| < 4 then None else
      match HexValue(s[..4])
      case None => None
      case Some(n) =>
        if n < 0xD800 || 0xE000 <= n < 0x10000 then Some((n as char, s[4..]))
        else if n < 0xDC00 && |s| >= 10 && s[4] == '\\' && s[5] == 'u' then
          match HexValue(s[6..10])
          case None => None
          case Some(m) => if 0xDC00 <= m < 0xE000
            then Some(((0x10000 + (n - 0xD800) * 0x400 + (m - 0xDC00)) as char, s[10..])) else None
        else None
  }

  /** What follows a backslash. */
  function ReadEscape(s: string): (r: Option<(char, string)>)
    ensures r.Some? ==> |r.value.1| < |s|
  {
    if |s| == 0 then None
    else if s[0] == '"' || s[0] == '\\' || s[0] == '/' then Some((s[0], s[1..]))
    else if s[0] == 'n' then Some(('\n', s[1..]))
    else if s[0] == 'r' then Some(('\r', s[1..]))
    else if s[0] == 't' then Some(('\t', s[1..]))
    else if s[0] == 'b' then Some((8 as char, s[1..]))
    else if s[0] == 'f' then Some((12 as char, s[1..]))
    else if s[0] == 'u' then ReadUnicode(s[1..])
    else None
  }

  /** A string after its opening quote. */
  function ReadString(s: string): (r: Option<(string, string)>)
    ensures r.Some? ==> |r.value.1| < |s|
    decreases |s|
  {
    if |s| == 0 || s[0] < ' ' then None
    else if s[0] == '"' then Some(("", s[1..]))
    else
      match if s[0] == '\\' then ReadEscape(s[1..]) else Some((s[0], s[1..]))
      case None => None
      case Some((c, after)) =>
        match ReadString(after)
        case None => None
        case Some((t, rest)) => Some(([c] + t, rest))
  }

  function DigitCount(s: string): (k: nat)
    ensures k <= |s| && forall c | c in s[..k] :: IsDigit(c)
  {
    if |s| > 0 && IsDigit(s[0]) then
      assert s[..DigitCount(s[1..]) + 1] == [s[0]] + s[1..][..DigitCount(s[1..])];
      DigitCount(s[1..]) + 1
    else 0
  }

  function DecimalValue(s: string): nat
    requires forall c | c in s :: IsDigit(c)
  {
    if |s| == 0 then 0 else
      assert (forall c | c in s[..|s| - 1] :: c in s) && IsDigit(s[|s| - 1]);
      10 * DecimalValue(s[..|s| - 1]) + (s[|s| - 1] as int - '0' as int)
  }

  /** An integer without leading zeros. */
  function ReadNumber(s: string): (r: Option<(int, string)>)
    ensures r.Some? ==> |r.value.1| < |s|
  {
    var negative := |s| > 0 && s[0] == '-';
    var t := if negative then s[1..] else s;
    var k := DigitCount(t);
    if k == 0 || (k > 1 && t[0] == '0') then None
    else
      var n: int := DecimalValue(t[..k]);
      Some((if negative then -n else n, t[k..]))
  }

  /** A value, and the text after it. */
  function ReadValue(s: string): (r: Option<(Json, string)>)
    ensures r.Some? ==> |r.value.1| < |s|
    decreases |s|, 0
  {
    if |s| == 0 then None
    else if s[0] == '"' then
      match ReadString(s[1..]) case None => None case Some((t, rest)) => Some((Str(t), rest))
    else if s[0] == '-' || IsDigit(s[0]) then
      match ReadNumber(s) case None => None case Some((n, rest)) => Some((Number(n), rest))
    else if "null" <= s then Some((Null, s[4..]))
    else if "true" <= s then Some((Truth(true), s[4..]))
    else if "false" <= s then Some((Truth(false), s[5..]))
    else if s[0] == '[' then
      match ReadFirst(s[1..]) case None => None case Some((items, rest)) => Some((List(items), rest))
    else if s[0] == '{' then
      match ReadFirstField(s[1..]) case None => None case Some((fields, rest)) => Some((Object(fields), rest))
    else None
  }

  /** The items of a list after its opening bracket. */
  function ReadFirst(s: string): (r: Option<(seq<Json>, string)>)
    ensures r.Some? ==> |r.value.1| < |s|
    decreases |s|, 1
  {
    var t := SkipBlanks(s);
    if |t| > 0 && t[0] == ']' then Some(([], t[1..])) else
      match ReadValue(t)
      case None => None
      case Some((v, after)) =>
        match ReadItems(after) case None => None case Some((items, rest)) => Some(([v] + items, rest))
  }

  /** The items after the first, each behind a comma, up to the closing bracket. */
  function ReadItems(s: string): (r: Option<(seq<Json>, string)>)
    ensures r.Some? ==> |r.value.1| < |s|
    decreases |s|, 1
  {
    var t := SkipBlanks(s);
    if |t| == 0 then None
    else if t[0] == ']' then Some(([], t[1..]))
    else if t[0] != ',' then None
    else
      match ReadValue(SkipBlanks(t[1..]))
      case None => None
      case Some((v, after)) =>
        match ReadItems(after) case None => None case Some((items, rest)) => Some(([v] + items, rest))
  }

  function ReadField(s: string): (r: Option<(Field, string)>)
    ensures r.Some? ==> |r.value.1| < |s|
    decreases |s|, 0
  {
    if |s| == 0 || s[0] != '"' then None else
      match ReadString(s[1..])
      case None => None
      case Some((key, after)) =>
        var t := SkipBlanks(after);
        if |t| == 0 || t[0] != ':' then None else
          match ReadValue(SkipBlanks(t[1..])) case None => None case Some((v, rest)) => Some((Field(key, v), rest))
  }

  function ReadFirstField(s: string): (r: Option<(seq<Field>, string)>)
    ensures r.Some? ==> |r.value.1| < |s|
    decreases |s|, 1
  {
    var t := SkipBlanks(s);
    if |t| > 0 && t[0] == '}' then Some(([], t[1..])) else
      match ReadField(t)
      case None => None
      case Some((f, after)) =>
        match ReadFields(after) case None => None case Some((fields, rest)) => Some(([f] + fields, rest))
  }

  function ReadFields(s: string): (r: Option<(seq<Field>, string)>)
    ensures r.Some? ==> |r.value.1| < |s|
    decreases |s|, 1
  {
    var t := SkipBlanks(s);
    if |t| == 0 then None
    else if t[0] == '}' then Some(([], t[1..]))
    else if t[0] != ',' then None
    else
      match ReadField(SkipBlanks(t[1..]))
      case None => None
      case Some((f, after)) =>
        match ReadFields(after) case None => None case Some((fields, rest)) => Some(([f] + fields, rest))
  }

  /** A whole text that holds one value. */
  function Parse(text: string): Option<Json> {
    match ReadValue(SkipBlanks(text))
    case None => None
    case Some((v, rest)) => if SkipBlanks(rest) == "" then Some(v) else None
  }

  // ---- Reading inverts writing ----

  lemma {:induction false} HexNumeral(n: nat, width: nat)
    requires n < Power(16, width)
    ensures HexValue(Numeral(n, 16, width)) == Some(n)
  {
    if width > 0 {
      HigherFits(n, 16, width);
      HexNumeral(Higher(n, 16), width - 1);
      HexOfDigit(Lowest(n, 16));
      NumeralEnds(n, width);
      hide Higher, Lowest, Power, Digit, HexDigit, Numeral;
    }
  }

  lemma NumeralEnds(n: nat, width: nat)
    requires width > 0
    ensures var s := Numeral(n, 16, width);
            s[..width - 1] == Numeral(Higher(n, 16), 16, width - 1) && s[width - 1] == Digit(Lowest(n, 16))
    ensures n == 16 * Higher(n, 16) + Lowest(n, 16)
  {
  }

  lemma HexOfDigit(d: nat)
    requires d < 16
    ensures HexDigit(Digit(d)) == Some(d)
  {
  }

  lemma UnitDigits(n: nat, rest: string)
    requires n < 0x10000
    ensures (Unit(n) + rest)[2..] == Numeral(n, 16, 4) + rest
    ensures (Numeral(n, 16, 4) + rest)[..4] == Numeral(n, 16, 4) && (Numeral(n, 16, 4) + rest)[4..] == rest
    ensures HexValue(Numeral(n, 16, 4)) == Some(n)
  {
    FourDigits();
    hide Numeral, Power, HexValue;
    HexNumeral(n, 4);
  }

  lemma FourDigits()
    ensures Power(16, 4) == 0x10000
  {
    assert Power(16, 2) == 256;
  }

  lemma WideRead(c: char, rest: string)
    requires c as int >= 0x10000
    ensures ReadUnicode(Numeral(High(c), 16, 4) + (Unit(Low(c)) + rest)) == Some((c, rest))
  {
    var tail := Unit(Low(c)) + rest;
    var s := Numeral(High(c), 16, 4) + tail;
    UnitDigits(High(c), tail);
    UnitDigits(Low(c), rest);
    assert s[4..] == tail && tail[2..] == Numeral(Low(c), 16, 4) + rest;
    assert s[6..10] == tail[2..][..4] && s[10..] == tail[2..][4..];
    assert s[4] == tail[0] && s[5] == tail[1];
    assert 0x10000 + (High(c) - 0xD800) * 0x400 + (Low(c) - 0xDC00) == c as int;
  }

  lemma ReadEscapeUnit(n: nat, tail: string)
    requires n < 0x10000
    ensures ReadEscape((Unit(n) + tail)[1..]) == ReadUnicode(Numeral(n, 16, 4) + tail)
  {
    hide Unit, Numeral, HexValue, ReadUnicode;
    UnitDigits(n, tail);
    assert (Unit(n) + tail)[1..][1..] == (Unit(n) + tail)[2..];
  }

  lemma WideEscapeRead(c: char, rest: string)
    requires c as int >= 0x10000
    ensures Escape(c)[0] == '\\' && ReadEscape((Escape(c) + rest)[1..]) == Some((c, rest))
  {
    WideEscape(c, rest);
    WideRead(c, rest);
    hide *;
    ReadEscapeUnit(High(c), Unit(Low(c)) + rest);
  }

  lemma WideEscape(c: char, rest: string)
    requires c as int >= 0x10000
    ensures Escape(c) == Unit(High(c)) + Unit(Low(c)) && Escape(c)[0] == '\\'
    ensures Escape(c) + rest == Unit(High(c)) + (Unit(Low(c)) + rest)
    ensures High(c) < 0x10000
  {
    assert Escape(c) == Unit(High(c)) + Unit(Low(c));
    assert High(c) < 0x10000;
    hide *;
    assert Escape(c) + rest == Unit(High(c)) + (Unit(Low(c)) + rest);
  }

  lemma UnitRead(n: nat, rest: string)
    requires n < 0xD800 || 0xE000 <= n < 0x10000
    ensures ReadUnicode(Numeral(n, 16, 4) + rest) == Some((n as char, rest))
  {
    UnitDigits(n, rest);
    hide Unit, Numeral, HexValue;
  }

  lemma UnitEscapeRead(c: char, rest: string)
    requires c as int < 0x10000 && Escape(c) == Unit(c as int)
    ensures Escape(c)[0] == '\\' && ReadEscape((Escape(c) + rest)[1..]) == Some((c, rest))
  {
    hide *;
    UnitRead(c as int, rest);
    ReadEscapeUnit(c as int, rest);
  }

  lemma ShortEscapeRead(c: char, rest: string)
    requires |Escape(c)| == 2
    ensures Escape(c)[0] == '\\' && ReadEscape((Escape(c) + rest)[1..]) == Some((c, rest))
  {
    hide Unit, Numeral, ReadUnicode;
    assert (Escape(c) + rest)[1..][1..] == rest && (Escape(c) + rest)[1..][0] == Escape(c)[1];
  }

  lemma EscapeKinds(c: char)
    ensures c as int >= 0x10000 || Escape(c) == Unit(c as int) || |Escape(c)| == 2
            || (Escape(c) == [c] && ' ' <= c && c != '"' && c != '\\')
  {
    hide Unit;
  }

  lemma EscapeRead(c: char, rest: string)
    ensures |Escape(c)| > 0 && Escape(c)[0] >= ' ' && Escape(c)[0] != '"'
    ensures if Escape(c)[0] == '\\' then ReadEscape((Escape(c) + rest)[1..]) == Some((c, rest)) else Escape(c) == [c]
  {
    EscapeKinds(c);
    EscapeNotEmpty(c);
    hide Escape, ReadEscape, Unit;
    if c as int >= 0x10000 {
      WideEscapeRead(c, rest);
    } else if Escape(c) == Unit(c as int) {
      UnitEscapeRead(c, rest);
    } else if |Escape(c)| == 2 {
      ShortEscapeRead(c, rest);
    }
  }

  lemma EscapeNotEmpty(c: char)
    ensures |Escape(c)| > 0
  {
  }

  lemma {:induction false} QuotedRead(s: string, rest: string)
    ensures ReadString(PutQuoted(s, rest)) == Some((s, rest))
  {
    if |s| > 0 {
      var after := PutQuoted(s[1..], rest);
      EscapeRead(s[0], after);
      QuotedRead(s[1..], rest);
      assert s == [s[0]] + s[1..];
      hide Escape, ReadEscape;
      assert Escape(s[0]) == [s[0]] ==> (Escape(s[0]) + after)[1..] == after;
    }
  }

  lemma {:induction false} DecimalRead(n: nat)
    ensures DecimalValue(Decimal(n)) == n
    ensures n > 0 ==> Decimal(n)[0] != '0'
    ensures n < 10 ==> |Decimal(n)| == 1
  {
    var s := Decimal(n);
    if n >= 10 {
      DecimalRead(n / 10);
      assert s[..|s| - 1] == Decimal(n / 10) && s[|s| - 1] == Digit(n % 10);
    } else {
      assert s[..0] == "";
    }
  }

  lemma {:induction false} DigitsCounted(a: string, rest: string)
    requires (forall c | c in a :: IsDigit(c)) && Ends(rest)
    ensures DigitCount(a + rest) == |a|
  {
    if |a| > 0 {
      assert (a + rest)[1..] == a[1..] + rest;
      DigitsCounted(a[1..], rest);
    } else {
      assert a + rest == rest;
    }
  }

  lemma DigitsRead(a: string, rest: string)
    requires |a| > 0 && (forall c | c in a :: IsDigit(c)) && (|a| > 1 ==> a[0] != '0') && Ends(rest)
    ensures ReadNumber(a + rest) == Some((DecimalValue(a), rest))
  {
    DigitsCounted(a, rest);
    var s := a + rest;
    assert s[0] == a[0] && s[0] != '-' by {
      assert IsDigit(a[0]);
    }
    hide DigitCount, DecimalValue, Ends, IsDigit;
    assert s[..|a|] == a && s[|a|..] == rest;
  }

  lemma NegativeRead(s: string, n: int, rest: string)
    requires |s| > 0 && s[0] != '-' && ReadNumber(s) == Some((n, rest))
    ensures ReadNumber("-" + s) == Some((-n, rest))
  {
    hide DigitCount, DecimalValue, Ends, IsDigit;
    var m := "-" + s;
    assert m[0] == '-' && m[1..] == s;
  }

  lemma IntegerRead(n: int, rest: string)
    requires Ends(rest)
    ensures ReadNumber(PutInteger(n, rest)) == Some((n, rest))
  {
    var m := if n < 0 then -n else n;
    DecimalRead(m);
    hide Decimal, DecimalValue, Ends, ReadNumber;
    DigitsRead(Decimal(m), rest);
    if n < 0 {
      assert IsDigit(Decimal(m)[0]);
      NegativeRead(Decimal(m) + rest, m, rest);
    }
  }

  ghost predicate Blanks(pad: string) {
    forall c | c in pad :: IsBlank(c)
  }

  lemma {:induction false} PadSkipped(pad: string, s: string)
    requires Blanks(pad) && |s| > 0 && !IsBlank(s[0])
    ensures SkipBlanks(pad + s) == s
  {
    if |pad| > 0 {
      assert pad[0] in pad && (pad + s)[1..] == pad[1..] + s;
      PadSkipped(pad[1..], s);
    } else {
      assert pad + s == s;
    }
  }

  /** Whatever blanks separate its parts, a written value is read back, with the text after it. */
  lemma {:induction false} ReadPut(pad: string, v: Json, rest: string)
    requires Blanks(pad) && Ends(rest)
    ensures ReadValue(Put(pad, v, rest)) == Some((v, rest))
    decreases v
  {
    var s := Put(pad, v, rest);
    assert Opens(v, s[0]);
    match v {
      case Null =>
        assert s[4..] == rest;
      case Str(a) =>
        QuotedRead(a, rest);
        assert s[1..] == PutQuoted(a, rest);
      case Number(n) =>
        IntegerRead(n, rest);
      case Truth(b) =>
        assert s[|if b then "true" else "false"|..] == rest;
      case List(items) =>
        FirstRead(pad, items, rest);
        assert s[1..] == PutFirst(pad, items, rest);
      case Object(fields) =>
        FirstFieldRead(pad, fields, rest);
        assert s[1..] == PutFirstField(pad, fields, rest);
    }
  }

  lemma NotBlank(pad: string, v: Json, rest: string)
    ensures !IsBlank(Put(pad, v, rest)[0]) && Put(pad, v, rest)[0] != ']'
  {
    assert Opens(v, Put(pad, v, rest)[0]);
  }

  lemma {:induction false} FirstRead(pad: string, items: seq<Json>, rest: string)
    requires Blanks(pad)
    ensures ReadFirst(PutFirst(pad, items, rest)) == Some((items, rest))
    decreases items, 1
  {
    var s := PutFirst(pad, items, rest);
    if |items| > 0 {
      NotBlank(pad, items[0], PutItems(pad, items[1..], rest));
      ReadPut(pad, items[0], PutItems(pad, items[1..], rest));
      ItemsRead(pad, items[1..], rest);
      assert items == [items[0]] + items[1..];
    } else {
      assert s[1..] == rest;
    }
  }

  lemma {:induction false} ItemsRead(pad: string, items: seq<Json>, rest: string)
    requires Blanks(pad)
    ensures ReadItems(PutItems(pad, items, rest)) == Some((items, rest))
    decreases items, 0
  {
    var s := PutItems(pad, items, rest);
    if |items| > 0 {
      var after := PutItems(pad, items[1..], rest);
      NotBlank(pad, items[0], after);
      PadSkipped(pad, Put(pad, items[0], after));
      ReadPut(pad, items[0], after);
      ItemsRead(pad, items[1..], rest);
      assert s[1..] == pad + Put(pad, items[0], after);
      assert items == [items[0]] + items[1..];
    } else {
      assert s[1..] == rest;
    }
  }

  lemma {:induction false} FieldRead(pad: string, f: Field, rest: string)
    requires Blanks(pad) && Ends(rest)
    ensures ReadField(PutField(pad, f, rest)) == Some((f, rest))
    decreases f
  {
    var value := Put(pad, f.value, rest);
    QuotedRead(f.key, ":" + (pad + value));
    NotBlank(pad, f.value, rest);
    PadSkipped(pad, value);
    ReadPut(pad, f.value, rest);
    assert PutField(pad, f, rest)[1..] == PutQuoted(f.key, ":" + (pad + value));
    assert (":" + (pad + value))[1..] == pad + value;
  }

  lemma {:induction false} FirstFieldRead(pad: string, fields: seq<Field>, rest: string)
    requires Blanks(pad)
    ensures ReadFirstField(PutFirstField(pad, fields, rest)) == Some((fields, rest))
    decreases fields, 1
  {
    hide ReadField, ReadValue, ReadString, PutQuoted;
    var s := PutFirstField(pad, fields, rest);
    if |fields| > 0 {
      FieldRead(pad, fields[0], PutFields(pad, fields[1..], rest));
      FieldsRead(pad, fields[1..], rest);
      assert fields == [fields[0]] + fields[1..];
    } else {
      assert s[1..] == rest;
    }
  }

  lemma {:induction false} FieldsRead(pad: string, fields: seq<Field>, rest: string)
    requires Blanks(pad)
    ensures ReadFields(PutFields(pad, fields, rest)) == Some((fields, rest))
    decreases fields, 0
  {
    hide ReadField, ReadValue, ReadString, PutQuoted;
    var s := PutFields(pad, fields, rest);
    if |fields| > 0 {
      var after := PutFields(pad, fields[1..], rest);
      PadSkipped(pad, PutField(pad, fields[0], after));
      FieldRead(pad, fields[0], after);
      FieldsRead(pad, fields[1..], rest);
      assert s[1..] == pad + PutField(pad, fields[0], after);
      assert fields == [fields[0]] + fields[1..];
    } else {
      assert s[1..] == rest;
    }
  }

  /** A value and the text after it are determined by the whole text. */
  lemma PutUnique(pad: string, v: Json, w: Json, s: string, t: string)
    requires Blanks(pad) && Ends(s) && Ends(t) && Put(pad, v, s) == Put(pad, w, t)
    ensures v == w && s == t
  {
    ReadPut(pad, v, s);
    ReadPut(pad, w, t);
  }

  /** The text that either writer gives is read back as the value. */
  lemma ParseDumps(v: Json)
    ensures Parse(Dumps(v)) == Some(v) && Parse(CompactDumps(v)) == Some(v)
  {
    ReadPut(" ", v, "");
    ReadPut("", v, "");
    NotBlank(" ", v, "");
    NotBlank("", v, "");
    hide Put, ReadValue;
  }

  /** Two values have the same text exactly when they are the same value. */
  lemma DumpsInjective(v: Json, w: Json)
    ensures Dumps(v) == Dumps(w) <==> v == w
    ensures CompactDumps(v) == CompactDumps(w) <==> v == w
  {
    hide Parse, Dumps, CompactDumps;
    ParseDumps(v);
    ParseDumps(w);
  }

  // ---- The text is printable ASCII ----

  ghost predicate Printable(s: string) {
    forall c | c in s :: ' ' <= c <= '~'
  }

  lemma {:induction false} NumeralPrintable(n: nat, width: nat)
    ensures Printable(Numeral(n, 16, width))
  {
    if width > 0 { NumeralPrintable(Higher(n, 16), width - 1); }
  }

  lemma EscapePrintable(c: char)
    ensures Printable(Escape(c))
  {
    if c as int >= 0x10000 {
      NumeralPrintable(High(c), 4);
      NumeralPrintable(Low(c), 4);
    } else {
      NumeralPrintable(c as int, 4);
    }
  }

  lemma {:induction false} QuotedPrintable(s: string, rest: string)
    requires Printable(rest)
    ensures Printable(PutQuoted(s, rest))
  {
    if |s| > 0 {
      EscapePrintable(s[0]);
      QuotedPrintable(s[1..], rest);
    }
  }

  /** Whatever characters the strings in a value have, its text is printable ASCII, so it never breaks a line. */
  lemma {:induction false} PutPrintable(pad: string, v: Json, rest: string)
    requires Printable(pad) && Printable(rest)
    ensures Printable(Put(pad, v, rest))
    decreases v
  {
    match v {
      case Null =>
      case Str(s) => QuotedPrintable(s, rest);
      case Number(_) =>
      case Truth(_) =>
      case List(items) =>
        if |items| > 0 {
          ItemsPrintable(pad, items[1..], rest);
          PutPrintable(pad, items[0], PutItems(pad, items[1..], rest));
        }
      case Object(fields) =>
        if |fields| > 0 {
          FieldsPrintable(pad, fields[1..], rest);
          FieldPrintable(pad, fields[0], PutFields(pad, fields[1..], rest));
        }
    }
  }

  lemma {:induction false} ItemsPrintable(pad: string, items: seq<Json>, rest: string)
    requires Printable(pad) && Printable(rest)
    ensures Printable(PutItems(pad, items, rest))
    decreases items
  {
    if |items| > 0 {
      ItemsPrintable(pad, items[1..], rest);
      PutPrintable(pad, items[0], PutItems(pad, items[1..], rest));
    }
  }

  lemma {:induction false} FieldPrintable(pad: string, f: Field, rest: string)
    requires Printable(pad) && Printable(rest)
    ensures Printable(PutField(pad, f, rest))
    decreases f
  {
    PutPrintable(pad, f.value, rest);
    QuotedPrintable(f.key, ":" + (pad + Put(pad, f.value, rest)));
  }

  lemma {:induction false} FieldsPrintable(pad: string, fields: seq<Field>, rest: string)
    requires Printable(pad) && Printable(rest)
    ensures Printable(PutFields(pad, fields, rest))
    decreases fields
  {
    if |fields| > 0 {
      FieldsPrintable(pad, fields[1..], rest);
      FieldPrintable(pad, fields[0], PutFields(pad, fields[1..], rest));
    }
  }

  lemma Padded(x: string)
    ensures "," + (" " + x) == ", " + x && ":" + (" " + x) == ": " + x
    ensures "," + ("" + x) == "," + x && ":" + ("" + x) == ":" + x
  {
  }

  /** Items and fields are separated by a comma and a blank, keys and values by a colon and a blank. */
  lemma Separators(v: Json, items: seq<Json>, f: Field, fields: seq<Field>, rest: string)
    ensures PutItems(" ", [v] + items, rest) == ", " + Put(" ", v, PutItems(" ", items, rest))
    ensures PutFields(" ", [f] + fields, rest) == ", " + PutField(" ", f, PutFields(" ", fields, rest))
    ensures PutField(" ", f, rest) == "\"" + PutQuoted(f.key, ": " + Put(" ", f.value, rest))
  {
    Padded(Put(" ", v, PutItems(" ", items, rest)));
    Padded(PutField(" ", f, PutFields(" ", fields, rest)));
    Padded(Put(" ", f.value, rest));
  }

  /** Compactly, both blanks are left out. */
  lemma CompactSeparators(v: Json, items: seq<Json>, f: Field, fields: seq<Field>, rest: string)
    ensures PutItems("", [v] + items, rest) == "," + Put("", v, PutItems("", items, rest))
    ensures PutFields("", [f] + fields, rest) == "," + PutField("", f, PutFields("", fields, rest))
    ensures PutField("", f, rest) == "\"" + PutQuoted(f.key, ":" + Put("", f.value, rest))
  {
    Padded(Put("", v, PutItems("", items, rest)));
    Padded(PutField("", f, PutFields("", fields, rest)));
    Padded(Put("", f.value, rest));
  }

  /** Short escapes where there are any. */
  lemma ShortEscapes()
    ensures Escape('\n') == "\\n" && Escape('\r') == "\\r" && Escape('\t') == "\\t"
    ensures Escape('"') == "\\\"" && Escape('\\') == "\\\\" && Escape('/') == "/" && Escape('a') == "a"
    ensures Escape(8 as char) == "\\b" && Escape(12 as char) == "\\f"
  {
    hide Unit;
  }
}
