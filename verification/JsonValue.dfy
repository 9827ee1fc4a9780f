/** Whole JSON texts: printing, parsing, and parsing what was printed. */
module JsonValue {
  import opened Bytes
  import opened Utf8Repair
  import opened JsonText

  // ----- Numbers (section 6) -----

  predicate IsDigit(b: byte) {
    0x30 <= b <= 0x39
  }

  function DigitsLength(s: seq<byte>): (n: nat)
    ensures n <= |s|
  {
    if s == [] || !IsDigit(s[0]) then 0 else 1 + DigitsLength(s[1..])
  }

  function IntLength(s: seq<byte>): (n: nat)
    ensures n <= |s|
  {
    if s == [] then 0 else if s[0] == 0x30 then 1 else DigitsLength(s)
  }

  function FracLength(s: seq<byte>): (n: nat)
    ensures n <= |s|
  {
    if s != [] && s[0] == 0x2E && DigitsLength(s[1..]) > 0 then 1 + DigitsLength(s[1..]) else 0
  }

  function ExpLength(s: seq<byte>): (n: nat)
    ensures n <= |s|
  {
    if s == [] || (s[0] != 0x65 && s[0] != 0x45) then 0
    else
      var sign := if |s| > 1 && (s[1] == 0x2B || s[1] == MINUS) then 2 else 1;
      var n := DigitsLength(s[sign..]);
      if n > 0 then sign + n else 0
  }

  /** The length of the number at the front, or 0. */
  function NumberLength(s: seq<byte>): (n: nat)
    ensures n <= |s|
  {
    var minus := if s != [] && s[0] == MINUS then 1 else 0;
    var i := IntLength(s[minus..]);
    if i == 0 then 0
    else
      var f := FracLength(s[minus + i..]);
      minus + i + f + ExpLength(s[minus + i + f..])
  }

  /** What cannot continue a number follows. */
  predicate Ends(s: seq<byte>) {
    s == [] || !(IsDigit(s[0]) || s[0] == 0x2E || s[0] == 0x65 || s[0] == 0x45)
  }

  function Digits(n: nat): (s: seq<byte>)
    ensures s != [] && (forall b | b in s :: IsDigit(b)) && (n > 0 ==> s[0] != 0x30) && (n == 0 ==> s == [0x30])
  {
    if n < 10 then [0x30 + n] else Digits(n / 10) + [0x30 + n % 10]
  }

  /** A number as sprintf spells it. */
  function Decimal(n: int): (s: seq<byte>)
    ensures s != []
  {
    if n < 0 then [MINUS] + Digits(-n) else Digits(n)
  }

  function DigitsValue(s: seq<byte>): nat
    requires forall b | b in s :: IsDigit(b)
  {
    if s == [] then 0
    else
      var d := s[|s| - 1];
      assert d in s && IsDigit(d);
      DigitsValue(s[..|s| - 1]) * 10 + (d as int - 0x30)
  }

  ghost predicate IsInteger(s: seq<byte>) {
    exists n: int :: s == Decimal(n)
  }

  lemma {:induction false} DigitsInvert(n: nat)
    ensures DigitsValue(Digits(n)) == n
  {
    if n >= 10 {
      DigitsInvert(n / 10);
      var s := Digits(n);
      assert s[..|s| - 1] == Digits(n / 10);
    } else {
      assert Digits(n)[..0] == [];
    }
  }

  lemma {:induction false} DigitsEnd(s: seq<byte>, rest: seq<byte>)
    requires (forall b | b in s :: IsDigit(b)) && (rest == [] || !IsDigit(rest[0]))
    ensures DigitsLength(s + rest) == |s|
    decreases |s|
  {
    if s == [] {
      assert s + rest == rest;
    } else {
      assert (s + rest)[1..] == s[1..] + rest;
      DigitsEnd(s[1..], rest);
    }
  }

  lemma {:induction false} IntEnds(m: nat, rest: seq<byte>)
    requires rest == [] || !IsDigit(rest[0])
    ensures IntLength(Digits(m) + rest) == |Digits(m)| && IsDigit(Digits(m)[0])
  {
    assert Digits(m)[0] in Digits(m);
    assert (Digits(m) + rest)[0] == Digits(m)[0];
    if m > 0 {
      DigitsEnd(Digits(m), rest);
    }
  }

  /** A number is read up to its end, and no further. */
  lemma {:induction false} NumberEnds(n: int, rest: seq<byte>)
    requires Ends(rest)
    ensures NumberLength(Decimal(n) + rest) == |Decimal(n)|
    ensures Decimal(n)[0] == MINUS || IsDigit(Decimal(n)[0])
  {
    hide Digits;
    hide IntLength;
    hide DigitsLength;
    var m := if n < 0 then -n else n;
    var s := Decimal(n) + rest;
    IntEnds(m, rest);
    if n < 0 {
      assert s[1..] == Digits(m) + rest && s[1 + |Digits(m)|..] == rest;
    } else {
      assert s[0..] == s && s[|Digits(m)|..] == rest;
      assert s[0] == Digits(m)[0];
    }
  }

  // ----- Printing -----

  type Text = seq<Segment>

  /** What the writer can have been asked to write. */
  ghost predicate Writable(v: Value<Text>) {
    match v
    case Number(token) => IsInteger(token)
    case Str(text) => ScalarsOnly(text)
    case Arr(items) => forall i | 0 <= i < |items| :: Writable(items[i])
    case Obj(fields) => forall i | 0 <= i < |fields| :: ScalarsOnly(fields[i].name) && Writable(fields[i].value)
    case _ => true
  }

  function Quoted(text: Text): seq<byte>
    requires ScalarsOnly(text)
  {
    [QUOTE] + Write(text) + [QUOTE]
  }

  function Print(v: Value<Text>): seq<byte>
    requires Writable(v)
  {
    match v
    case Null => NULL
    case Bool(b) => if b then TRUE else FALSE
    case Number(token) => token
    case Str(text) => Quoted(text)
    case Arr(items) => [LBRACKET] + PrintItems(items) + [RBRACKET]
    case Obj(fields) => [LBRACE] + PrintFields(fields) + [RBRACE]
  }

  function PrintItems(items: seq<Value<Text>>): seq<byte>
    requires forall i | 0 <= i < |items| :: Writable(items[i])
  {
    if items == [] then []
    else if |items| == 1 then Print(items[0])
    else Print(items[0]) + ([COMMA] + PrintItems(items[1..]))
  }

  function PrintField(f: Field<Text>): seq<byte>
    requires ScalarsOnly(f.name) && Writable(f.value)
  {
    Quoted(f.name) + [COLON] + Print(f.value)
  }

  function PrintFields(fields: seq<Field<Text>>): seq<byte>
    requires forall i | 0 <= i < |fields| :: ScalarsOnly(fields[i].name) && Writable(fields[i].value)
  {
    if fields == [] then []
    else if |fields| == 1 then PrintField(fields[0])
    else PrintField(fields[0]) + ([COMMA] + PrintFields(fields[1..]))
  }

  /** What the reader should find. */
  function MeaningOf(v: Value<Text>): Value<seq<nat>> {
    match v
    case Null => Null
    case Bool(b) => Bool(b)
    case Number(token) => Number(token)
    case Str(text) => Str(MeaningAll(text))
    case Arr(items) => Arr(seq(|items|, i requires 0 <= i < |items| => MeaningOf(items[i])))
    case Obj(fields) =>
      Obj(seq(|fields|, i requires 0 <= i < |fields| => Field(MeaningAll(fields[i].name), MeaningOf(fields[i].value))))
  }

  // ----- Parsing (sections 2 to 5) -----

  function SkipSpace(s: seq<byte>): (r: seq<byte>)
    ensures |r| <= |s|
  {
    if s != [] && (s[0] == 0x20 || s[0] == 0x09 || s[0] == 0x0A || s[0] == 0x0D) then SkipSpace(s[1..]) else s
  }

  /** The rest after this token, which white space may precede. */
  function Expect(s: seq<byte>, b: byte): (r: Read<()>)
    ensures r.Read? ==> |r.rest| < |s|
  {
    var t := SkipSpace(s);
    if t != [] && t[0] == b then Read((), t[1..]) else Fail
  }

  function ReadValue(s: seq<byte>): (r: Read<Value<seq<nat>>>)
    ensures r.Read? ==> |r.rest| < |s|
    decreases |s|, 1
  {
    var t := SkipSpace(s);
    if t == [] then Fail
    else if NULL <= t then Read(Null, t[4..])
    else if TRUE <= t then Read(Bool(true), t[4..])
    else if FALSE <= t then Read(Bool(false), t[5..])
    else if t[0] == QUOTE then
      var r := ReadString(t[1..]);
      if r.Fail? then Fail else Read(Str(r.value), r.rest)
    else if t[0] == LBRACKET then
      var close := Expect(t[1..], RBRACKET);
      if close.Read? then Read(Arr([]), close.rest)
      else
        var r := ReadItems(t[1..]);
        if r.Fail? then Fail else Read(Arr(r.value), r.rest)
    else if t[0] == LBRACE then
      var close := Expect(t[1..], RBRACE);
      if close.Read? then Read(Obj([]), close.rest)
      else
        var r := ReadFields(t[1..]);
        if r.Fail? then Fail else Read(Obj(r.value), r.rest)
    else if NumberLength(t) > 0 then Read(Number(t[..NumberLength(t)]), t[NumberLength(t)..])
    else Fail
  }

  /** At least one value, and the bracket that closes the array. */
  function ReadItems(s: seq<byte>): (r: Read<seq<Value<seq<nat>>>>)
    ensures r.Read? ==> |r.rest| < |s|
    decreases |s|, 2
  {
    var v := ReadValue(s);
    if v.Fail? then Fail
    else
      var close, comma := Expect(v.rest, RBRACKET), Expect(v.rest, COMMA);
      if close.Read? then Read([v.value], close.rest)
      else if comma.Fail? then Fail
      else
        var r := ReadItems(comma.rest);
        if r.Fail? then Fail else Read([v.value] + r.value, r.rest)
  }

  function ReadField(s: seq<byte>): (r: Read<Field<seq<nat>>>)
    ensures r.Read? ==> |r.rest| < |s|
    decreases |s|, 2
  {
    var quote := Expect(s, QUOTE);
    if quote.Fail? then Fail
    else
      var name := ReadString(quote.rest);
      if name.Fail? then Fail
      else
        var colon := Expect(name.rest, COLON);
        if colon.Fail? then Fail
        else
          var v := ReadValue(colon.rest);
          if v.Fail? then Fail else Read(Field(name.value, v.value), v.rest)
  }

  function ReadFields(s: seq<byte>): (r: Read<seq<Field<seq<nat>>>>)
    ensures r.Read? ==> |r.rest| < |s|
    decreases |s|, 3
  {
    var f := ReadField(s);
    if f.Fail? then Fail
    else
      var close, comma := Expect(f.rest, RBRACE), Expect(f.rest, COMMA);
      if close.Read? then Read([f.value], close.rest)
      else if comma.Fail? then Fail
      else
        var r := ReadFields(comma.rest);
        if r.Fail? then Fail else Read([f.value] + r.value, r.rest)
  }

  /** A JSON text is a value with nothing but white space around it. */
  function Parse(s: seq<byte>): Read<Value<seq<nat>>> {
    var r := ReadValue(s);
    if r.Read? && SkipSpace(r.rest) == [] then Read(r.value, []) else Fail
  }

  // ----- Parsing what was printed -----

  lemma {:induction false} ExpectFirst(b: byte, rest: seq<byte>)
    requires b != 0x20 && b != 0x09 && b != 0x0A && b != 0x0D
    ensures SkipSpace([b] + rest) == [b] + rest
    ensures Expect([b] + rest, b) == Read((), rest)
    ensures forall c: byte | c != b :: Expect([b] + rest, c) == Fail
  {
    assert ([b] + rest)[1..] == rest;
  }

  /** A printed value begins with no white space, and not like the end of an array. */
  lemma {:induction false} FirstByte(v: Value<Text>, rest: seq<byte>)
    requires Writable(v)
    ensures Print(v) != []
    ensures var s := Print(v) + rest;
            SkipSpace(s) == s && Expect(s, RBRACKET) == Fail
  {
    if v.Number? {
      var n: int :| v.token == Decimal(n);
      NumberEnds(n, []);
    }
  }

  lemma {:induction false} NumberInverts(token: seq<byte>, rest: seq<byte>)
    requires IsInteger(token) && Ends(rest)
    ensures ReadValue(token + rest) == Read(Number(token), rest)
  {
    hide NumberLength;
    FirstByte(Number(token), rest);
    var n: int :| token == Decimal(n);
    NumberEnds(n, rest);
    var s := token + rest;
    assert s[0] == token[0] && s[..|token|] == token && s[|token|..] == rest;
  }

  lemma {:induction false} StrInverts(text: Text, rest: seq<byte>)
    requires ScalarsOnly(text)
    ensures ReadValue(Quoted(text) + rest) == Read(Str(MeaningAll(text)), rest)
  {
    hide ReadString;
    hide Write;
    FirstByte(Str(text), rest);
    StringInverts(text, rest);
    var s := Quoted(text) + rest;
    assert s[1..] == Write(text) + ([QUOTE] + rest);
  }

  lemma {:induction false} AtomInverts(v: Value<Text>, rest: seq<byte>)
    requires Writable(v) && !v.Arr? && !v.Obj? && Ends(rest)
    ensures ReadValue(Print(v) + rest) == Read(MeaningOf(v), rest)
  {
    if v.Number? {
      NumberInverts(v.token, rest);
    } else if v.Str? {
      StrInverts(v.text, rest);
    } else {
      FirstByte(v, rest);
      var s := Print(v) + rest;
      assert s[|Print(v)|..] == rest && Print(v) <= s;
    }
  }

  lemma {:induction false} OpensArr(v: Value<Text>, rest: seq<byte>)
    requires v.Arr? && Writable(v)
    ensures forall i | 0 <= i < |v.items| :: Writable(v.items[i])
    ensures var s := PrintItems(v.items) + ([RBRACKET] + rest);
            Print(v) + rest == [LBRACKET] + s && SkipSpace(Print(v) + rest) == [LBRACKET] + s && ([LBRACKET] + s)[1..] == s
  {
    FirstByte(v, rest);
  }

  lemma {:induction false} ItemsOpen(items: seq<Value<Text>>, tail: seq<byte>)
    requires items != [] && forall i | 0 <= i < |items| :: Writable(items[i])
    ensures Expect(PrintItems(items) + tail, RBRACKET) == Fail
  {
    if |items| == 1 {
      FirstByte(items[0], tail);
    } else {
      var more := [COMMA] + PrintItems(items[1..]);
      FirstByte(items[0], more + tail);
      assert PrintItems(items) + tail == Print(items[0]) + (more + tail);
    }
  }

  lemma {:induction false} ArrInverts(v: Value<Text>, rest: seq<byte>)
    requires v.Arr? && Writable(v)
    ensures ReadValue(Print(v) + rest) == Read(MeaningOf(v), rest)
    decreases v, 1
  {
    hide ReadItems;
    hide SkipSpace;
    hide Expect;
    hide Writable;
    hide Print;
    OpensArr(v, rest);
    var s, tail := PrintItems(v.items) + ([RBRACKET] + rest), [RBRACKET] + rest;
    var t := [LBRACKET] + s;
    assert t[0] == LBRACKET && !(NULL <= t) && !(TRUE <= t) && !(FALSE <= t);
    if v.items == [] {
      assert s == tail && MeaningOf(v).items == [];
      ExpectFirst(RBRACKET, rest);
    } else {
      ItemsOpen(v.items, tail);
      ItemsInvert(v, v.items, rest);
      assert MeaningOf(v).items == ReadItems(s).value;
    }
  }

  lemma {:induction false} OpensObj(v: Value<Text>, rest: seq<byte>)
    requires v.Obj? && Writable(v)
    ensures forall i | 0 <= i < |v.fields| :: ScalarsOnly(v.fields[i].name) && Writable(v.fields[i].value)
    ensures var s := PrintFields(v.fields) + ([RBRACE] + rest);
            Print(v) + rest == [LBRACE] + s && SkipSpace(Print(v) + rest) == [LBRACE] + s && ([LBRACE] + s)[1..] == s
  {
    FirstByte(v, rest);
  }

  lemma {:induction false} FieldsOpen(fields: seq<Field<Text>>, tail: seq<byte>)
    requires fields != [] && forall i | 0 <= i < |fields| :: ScalarsOnly(fields[i].name) && Writable(fields[i].value)
    ensures Expect(PrintFields(fields) + tail, RBRACE) == Fail
  {
    var s := PrintFields(fields) + tail;
    assert PrintField(fields[0])[0] == QUOTE && s[0] == PrintField(fields[0])[0];
    assert s == [QUOTE] + s[1..];
    ExpectFirst(QUOTE, s[1..]);
  }

  lemma {:induction false} ObjInverts(v: Value<Text>, rest: seq<byte>)
    requires v.Obj? && Writable(v)
    ensures ReadValue(Print(v) + rest) == Read(MeaningOf(v), rest)
    decreases v, 1
  {
    hide ReadFields;
    hide SkipSpace;
    hide Expect;
    hide Writable;
    hide Print;
    OpensObj(v, rest);
    var s, tail := PrintFields(v.fields) + ([RBRACE] + rest), [RBRACE] + rest;
    var t := [LBRACE] + s;
    assert t[0] == LBRACE && !(NULL <= t) && !(TRUE <= t) && !(FALSE <= t);
    if v.fields == [] {
      assert s == tail && MeaningOf(v).fields == [];
      ExpectFirst(RBRACE, rest);
    } else {
      FieldsOpen(v.fields, tail);
      FieldsInvert(v, v.fields, rest);
      assert MeaningOf(v).fields == ReadFields(s).value;
    }
  }

  lemma {:induction false} ValueInverts(v: Value<Text>, rest: seq<byte>)
    requires Writable(v) && Ends(rest)
    ensures ReadValue(Print(v) + rest) == Read(MeaningOf(v), rest)
    decreases v, 2
  {
    hide ReadValue;
    hide Print;
    hide MeaningOf;
    if v.Arr? {
      ArrInverts(v, rest);
    } else if v.Obj? {
      ObjInverts(v, rest);
    } else {
      AtomInverts(v, rest);
    }
  }

  lemma {:induction false} ItemsInvert(v: Value<Text>, items: seq<Value<Text>>, rest: seq<byte>)
    requires items != [] && (forall i | 0 <= i < |items| :: Writable(items[i]) && items[i] < v)
    ensures ReadItems(PrintItems(items) + ([RBRACKET] + rest))
         == Read(seq(|items|, i requires 0 <= i < |items| => MeaningOf(items[i])), rest)
    decreases v, 0, |items|
  {
    hide ReadValue;
    hide Expect;
    hide Print;
    hide MeaningOf;
    var tail := [RBRACKET] + rest;
    var s := PrintItems(items) + tail;
    if |items| == 1 {
      ValueInverts(items[0], tail);
      ExpectFirst(RBRACKET, rest);
      assert ReadItems(s).value == seq(|items|, i requires 0 <= i < |items| => MeaningOf(items[i]));
    } else {
      var more := PrintItems(items[1..]) + tail;
      assert s == Print(items[0]) + ([COMMA] + more);
      ValueInverts(items[0], [COMMA] + more);
      ExpectFirst(COMMA, more);
      ItemsInvert(v, items[1..], rest);
      assert ReadItems(s).value == seq(|items|, i requires 0 <= i < |items| => MeaningOf(items[i]));
    }
  }

  lemma {:induction false} FieldInverts(v: Value<Text>, f: Field<Text>, rest: seq<byte>)
    requires ScalarsOnly(f.name) && Writable(f.value) && f.value < v && Ends(rest)
    ensures ReadField(PrintField(f) + rest) == Read(Field(MeaningAll(f.name), MeaningOf(f.value)), rest)
    decreases v, 0, 0
  {
    hide ReadValue;
    hide Expect;
    hide Print;
    hide MeaningOf;
    hide ReadString;
    hide Write;
    var value := Print(f.value) + rest;
    var name := Write(f.name) + ([QUOTE] + ([COLON] + value));
    assert PrintField(f) + rest == [QUOTE] + name;
    ExpectFirst(QUOTE, name);
    StringInverts(f.name, [COLON] + value);
    ExpectFirst(COLON, value);
    ValueInverts(f.value, rest);
  }

  lemma {:induction false} FieldsInvert(v: Value<Text>, fields: seq<Field<Text>>, rest: seq<byte>)
    requires fields != []
    requires forall i | 0 <= i < |fields| :: ScalarsOnly(fields[i].name) && Writable(fields[i].value) && fields[i].value < v
    ensures ReadFields(PrintFields(fields) + ([RBRACE] + rest))
         == Read(seq(|fields|, i requires 0 <= i < |fields| => Field(MeaningAll(fields[i].name), MeaningOf(fields[i].value))), rest)
    decreases v, 0, |fields|
  {
    hide ReadField;
    hide Expect;
    hide PrintField;
    hide MeaningOf;
    hide MeaningAll;
    var tail := [RBRACE] + rest;
    var s := PrintFields(fields) + tail;
    if |fields| == 1 {
      FieldInverts(v, fields[0], tail);
      ExpectFirst(RBRACE, rest);
      assert ReadFields(s).value
          == seq(|fields|, i requires 0 <= i < |fields| => Field(MeaningAll(fields[i].name), MeaningOf(fields[i].value)));
    } else {
      var more := PrintFields(fields[1..]) + tail;
      assert s == PrintField(fields[0]) + ([COMMA] + more);
      FieldInverts(v, fields[0], [COMMA] + more);
      ExpectFirst(COMMA, more);
      FieldsInvert(v, fields[1..], rest);
      assert ReadFields(s).value
          == seq(|fields|, i requires 0 <= i < |fields| => Field(MeaningAll(fields[i].name), MeaningOf(fields[i].value)));
    }
  }

  /** What is printed is a JSON text for what it was printed from. */
  lemma {:induction false} RoundTrip(v: Value<Text>)
    requires Writable(v)
    ensures Parse(Print(v)) == Read(MeaningOf(v), [])
  {
    ValueInverts(v, []);
    assert Print(v) + [] == Print(v);
  }
}
