/** packages/postgres/src/pgpool.ts: the key-order-independent serializer behind the pool registry. */
module StableStringify {
  import opened Common

  /** A JavaScript string is a sequence of UTF-16 code units, lone surrogates included. */
  newtype CodeUnit = x: int | 0 <= x < 0x10000

  type Text = seq<CodeUnit>

  const QUOTE: CodeUnit := 0x22
  const BACKSLASH: CodeUnit := 0x5C
  const COMMA: CodeUnit := 0x2C
  const COLON: CodeUnit := 0x3A
  const OPEN_LIST: CodeUnit := 0x5B
  const CLOSE_LIST: CodeUnit := 0x5D
  const OPEN_OBJECT: CodeUnit := 0x7B
  const CLOSE_OBJECT: CodeUnit := 0x7D
  const LETTER_U: CodeUnit := 0x75
  const NULL_TEXT: Text := [0x6E, 0x75, 0x6C, 0x6C]
  const TRUE_TEXT: Text := [0x74, 0x72, 0x75, 0x65]
  const FALSE_TEXT: Text := [0x66, 0x61, 0x6C, 0x73, 0x65]
  const UNDEFINED_TEXT: Text := [0x75, 0x6E, 0x64, 0x65, 0x66, 0x69, 0x6E, 0x65, 0x64]

  /** A configuration value. `Num` carries the decimal text of a finite number; `NonFinite` is NaN or an infinity. */
  datatype Value =
    | Null
    | Bool(b: bool)
    | Num(text: Text)
    | NonFinite
    | Str(s: Text)
    | Undefined
    | Function
    | Arr(items: seq<Value>)
    | Obj(members: seq<Member>)

  datatype Member = Member(key: Text, value: Value)

  /** What two configurations have in common when they differ in key order only. */
  datatype Meaning =
    | MNull
    | MBool(b: bool)
    | MNum(text: Text)
    | MStr(s: Text)
    | MUndefined
    | MArr(items: seq<Meaning>)
    | MObj(members: map<Text, Meaning>)

  // ---- well-formed values ----

  predicate NumUnit(u: CodeUnit) {
    0x30 <= u <= 0x39 || u == 0x2B || u == 0x2D || u == 0x2E || u == 0x65
  }

  predicate NumText(t: Text) {
    t != [] && (0x30 <= t[0] <= 0x39 || t[0] == 0x2D) && forall i :: 0 <= i < |t| ==> NumUnit(t[i])
  }

  /** Number texts are number texts, and no object has a key twice. */
  predicate Valid(v: Value) {
    match v
    case Num(t) => NumText(t)
    case Arr(items) => forall i :: 0 <= i < |items| ==> Valid(items[i])
    case Obj(ms) =>
      && (forall i, j :: 0 <= i < j < |ms| ==> ms[i].key != ms[j].key)
      && forall i :: 0 <= i < |ms| ==> Valid(ms[i].value)
    case _ => true
  }

  /** Members that hold a function are dropped, a list of one absent element reads as the empty list, and
      a number that is not finite reads as null; otherwise only the order of keys is forgotten. */
  ghost function Means(v: Value): (r: Meaning)
    decreases v, 1
  {
    match v
    case Null => MNull
    case NonFinite => MNull
    case Bool(b) => MBool(b)
    case Num(t) => MNum(t)
    case Str(s) => MStr(s)
    case Undefined => MUndefined
    case Function => MUndefined
    case Arr(items) => if |items| == 1 && Absent(items[0]) then MArr([]) else MArr(MeansItems(items))
    case Obj(ms) => MObj(MeansMembers(ms))
  }

  ghost function MeansItems(items: seq<Value>): (ms: seq<Meaning>)
    ensures |ms| == |items| && forall i :: 0 <= i < |items| ==> ms[i] == Means(items[i])
    decreases items, 0
  {
    if items == [] then [] else [Means(items[0])] + MeansItems(items[1..])
  }

  ghost function MeansMembers(ms: seq<Member>): (r: map<Text, Meaning>)
    decreases ms, 0
  {
    if ms == [] then map[]
    else if ms[0].value.Function? then MeansMembers(ms[1..])
    else MeansMembers(ms[1..])[ms[0].key := Means(ms[0].value)]
  }

  predicate Absent(v: Value) { v.Undefined? || v.Function? }

  // ---- JSON.stringify on strings ----

  predicate Lead(u: CodeUnit) { 0xD800 <= u <= 0xDBFF }
  predicate Trail(u: CodeUnit) { 0xDC00 <= u <= 0xDFFF }

  function HexDigit(n: nat): (r: CodeUnit)
    requires n < 16
  {
    if n < 10 then (0x30 + n) as CodeUnit else (0x57 + n) as CodeUnit
  }

  function FromHex(u: CodeUnit): (n: nat)
    ensures n < 16
  {
    if 0x30 <= u <= 0x39 then u as int - 0x30 else if 0x61 <= u <= 0x66 then u as int - 0x57 else 0
  }

  function UnicodeEscape(u: CodeUnit): (r: Text) {
    var n := u as int;
    [BACKSLASH, LETTER_U,
     HexDigit(n / 16 / 16 / 16), HexDigit(n / 16 / 16 % 16), HexDigit(n / 16 % 16), HexDigit(n % 16)]
  }

  /** The letter of a two-unit escape, if the unit has one. */
  function ShortEscape(u: CodeUnit): (letter: CodeUnit) {
    if u == QUOTE || u == BACKSLASH then u
    else if u == 8 then 0x62
    else if u == 9 then 0x74
    else if u == 10 then 0x6E
    else if u == 12 then 0x66
    else if u == 13 then 0x72
    else LETTER_U
  }

  function FromShort(letter: CodeUnit): (r: CodeUnit) {
    if letter == 0x62 then 8
    else if letter == 0x74 then 9
    else if letter == 0x6E then 10
    else if letter == 0x66 then 12
    else if letter == 0x72 then 13
    else letter
  }

  function EscapeUnit(u: CodeUnit): (r: Text) {
    if ShortEscape(u) != LETTER_U then [BACKSLASH, ShortEscape(u)]
    else if u < 0x20 || Lead(u) || Trail(u) then UnicodeEscape(u)
    else [u]
  }

  function Escape(s: Text): (r: Text) {
    if s == [] then []
    else if |s| >= 2 && Lead(s[0]) && Trail(s[1]) then [s[0], s[1]] + Escape(s[2..])
    else EscapeUnit(s[0]) + Escape(s[1..])
  }

  function Quote(s: Text): (r: Text) { [QUOTE] + (Escape(s) + [QUOTE]) }

  // ---- the serializer ----

  /** A member's key and the text of its value. */
  datatype Entry = Entry(key: Text, text: Text)

  predicate Before(a: Text, b: Text) {
    b != [] && (a == [] || a[0] < b[0] || (a[0] == b[0] && Before(a[1..], b[1..])))
  }

  function Insert(e: Entry, es: seq<Entry>): (r: seq<Entry>) {
    if es == [] || Before(e.key, es[0].key) then [e] + es else [es[0]] + Insert(e, es[1..])
  }

  /** `Array.prototype.sort` on the keys: by code units. */
  function SortByKey(es: seq<Entry>): (r: seq<Entry>) {
    if es == [] then [] else Insert(es[0], SortByKey(es[1..]))
  }

  function Join(ts: seq<Text>): (r: Text) {
    if ts == [] then [] else if |ts| == 1 then ts[0] else ts[0] + ([COMMA] + Join(ts[1..]))
  }

  function EntryText(e: Entry): (r: Text) { Quote(e.key) + ([COLON] + e.text) }

  function EntryTexts(es: seq<Entry>): (ts: seq<Text>)
    ensures |ts| == |es| && forall i :: 0 <= i < |es| ==> ts[i] == EntryText(es[i])
  {
    if es == [] then [] else [EntryText(es[0])] + EntryTexts(es[1..])
  }

  function Wrap(open: CodeUnit, t: Text, close: CodeUnit): (r: Text) { [open] + (t + [close]) }

  function Stringify(v: Value): (r: Text)
    decreases v, 1
  {
    match v
    case Null => NULL_TEXT
    case NonFinite => NULL_TEXT
    case Bool(b) => if b then TRUE_TEXT else FALSE_TEXT
    case Num(t) => t
    case Str(s) => Quote(s)
    case Undefined => UNDEFINED_TEXT
    case Function => UNDEFINED_TEXT
    case Arr(items) => Wrap(OPEN_LIST, Join(ItemTexts(items)), CLOSE_LIST)
    case Obj(ms) => Wrap(OPEN_OBJECT, Join(EntryTexts(SortByKey(Entries(ms)))), CLOSE_OBJECT)
  }

  /** `join` prints an absent element as the empty text. */
  function ItemTexts(items: seq<Value>): (ts: seq<Text>)
    ensures |ts| == |items|
    ensures forall i :: 0 <= i < |items| ==> ts[i] == if Absent(items[i]) then [] else Stringify(items[i])
    decreases items, 0
  {
    if items == [] then []
    else if Absent(items[0]) then [[]] + ItemTexts(items[1..])
    else [Stringify(items[0])] + ItemTexts(items[1..])
  }

  function Entries(ms: seq<Member>): (r: seq<Entry>)
    decreases ms, 0
  {
    if ms == [] then []
    else if ms[0].value.Function? then Entries(ms[1..])
    else [Entry(ms[0].key, Stringify(ms[0].value))] + Entries(ms[1..])
  }

  // ---- reading a quoted string back ----

  datatype Read = Read(s: Text, rest: Text)

  function Unescape(t: Text): (r: Read) {
    if t == [] || t[0] == QUOTE then Read([], if t == [] then [] else t[1..])
    else if t[0] == BACKSLASH && |t| >= 2 && t[1] != LETTER_U then
      var r := Unescape(t[2..]);
      Read([FromShort(t[1])] + r.s, r.rest)
    else if t[0] == BACKSLASH && |t| >= 6 then
      var r := Unescape(t[6..]);
      Read([HexValue(t[2], t[3], t[4], t[5])] + r.s, r.rest)
    else
      var r := Unescape(t[1..]);
      Read([t[0]] + r.s, r.rest)
  }

  lemma FromHexDigit(n: nat)
    requires n < 16
    ensures FromHex(HexDigit(n)) == n
  {
  }

  function HexValue(a: CodeUnit, b: CodeUnit, c: CodeUnit, d: CodeUnit): (n: CodeUnit) {
    (((FromHex(a) * 16 + FromHex(b)) * 16 + FromHex(c)) * 16 + FromHex(d)) as CodeUnit
  }

  lemma HexDigits(u: CodeUnit)
    ensures var e := UnicodeEscape(u); HexValue(e[2], e[3], e[4], e[5]) == u
  {
    var n := u as int;
    FromHexDigit(n / 16 / 16 / 16);
    FromHexDigit(n / 16 / 16 % 16);
    FromHexDigit(n / 16 % 16);
    FromHexDigit(n % 16);
    Nibble(n / 16 / 16);
    Nibble(n / 16);
    Nibble(n);
  }

  lemma Nibble(n: nat)
    ensures n / 16 * 16 + n % 16 == n
  {
  }

  lemma HexRoundTrip(u: CodeUnit, rest: Text)
    ensures var r := Unescape(rest); Unescape(UnicodeEscape(u) + rest) == Read([u] + r.s, r.rest)
  {
    var t := UnicodeEscape(u) + rest;
    assert t[6..] == rest;
    HexDigits(u);
    assert HexValue(t[2], t[3], t[4], t[5]) == u;
  }

  lemma UnitRoundTrip(u: CodeUnit, rest: Text)
    ensures var r := Unescape(rest); Unescape(EscapeUnit(u) + rest) == Read([u] + r.s, r.rest)
  {
    if ShortEscape(u) != LETTER_U {
      ShortRoundTrip(u, rest);
    } else if u < 0x20 || Lead(u) || Trail(u) {
      HexRoundTrip(u, rest);
    } else {
      PlainRoundTrip(u, rest);
    }
  }

  lemma ShortRoundTrip(u: CodeUnit, rest: Text)
    requires ShortEscape(u) != LETTER_U
    ensures var r := Unescape(rest); Unescape([BACKSLASH, ShortEscape(u)] + rest) == Read([u] + r.s, r.rest)
  {
    var t := [BACKSLASH, ShortEscape(u)] + rest;
    assert t[2..] == rest;
    assert FromShort(ShortEscape(u)) == u;
  }

  lemma PlainRoundTrip(u: CodeUnit, rest: Text)
    requires u != QUOTE && u != BACKSLASH
    ensures var r := Unescape(rest); Unescape([u] + rest) == Read([u] + r.s, r.rest)
  {
    assert ([u] + rest)[1..] == rest;
  }

  lemma PairRoundTrip(a: CodeUnit, b: CodeUnit, rest: Text)
    requires Lead(a) && Trail(b)
    ensures var r := Unescape(rest); Unescape([a, b] + rest) == Read([a, b] + r.s, r.rest)
  {
    var r := Unescape(rest);
    PlainRoundTrip(b, rest);
    PlainRoundTrip(a, [b] + rest);
    assert [a, b] + rest == [a] + ([b] + rest);
    assert [a, b] + r.s == [a] + ([b] + r.s);
  }

  lemma {:induction false} EscapeRoundTrip(s: Text, rest: Text)
    ensures Unescape(Escape(s) + ([QUOTE] + rest)) == Read(s, rest)
  {
    var tail := [QUOTE] + rest;
    if s == [] {
      assert Escape(s) + tail == tail;
      assert tail[1..] == rest;
    } else if |s| >= 2 && Lead(s[0]) && Trail(s[1]) {
      EscapeRoundTrip(s[2..], rest);
      PairStep(s, tail, rest);
    } else {
      EscapeRoundTrip(s[1..], rest);
      UnitStep(s, tail, rest);
    }
  }

  lemma PairStep(s: Text, tail: Text, rest: Text)
    requires |s| >= 2 && Lead(s[0]) && Trail(s[1])
    requires Unescape(Escape(s[2..]) + tail) == Read(s[2..], rest)
    ensures Unescape(Escape(s) + tail) == Read(s, rest)
  {
    PairRoundTrip(s[0], s[1], Escape(s[2..]) + tail);
    Assoc([s[0], s[1]], Escape(s[2..]), tail);
    assert s == [s[0], s[1]] + s[2..];
  }

  lemma UnitStep(s: Text, tail: Text, rest: Text)
    requires s != [] && !(|s| >= 2 && Lead(s[0]) && Trail(s[1]))
    requires Unescape(Escape(s[1..]) + tail) == Read(s[1..], rest)
    ensures Unescape(Escape(s) + tail) == Read(s, rest)
  {
    UnitRoundTrip(s[0], Escape(s[1..]) + tail);
    Assoc(EscapeUnit(s[0]), Escape(s[1..]), tail);
    assert s == [s[0]] + s[1..];
  }

  /** A quoted string ends where it ends: whatever follows, both parts can be read back. */
  lemma QuoteSplits(a: Text, x: Text, b: Text, y: Text)
    requires Quote(a) + x == Quote(b) + y
    ensures a == b && x == y
  {
    EscapeRoundTrip(a, x);
    EscapeRoundTrip(b, y);
    QuoteTail(a, x);
    QuoteTail(b, y);
  }

  lemma QuoteTail(a: Text, x: Text)
    ensures (Quote(a) + x)[1..] == Escape(a) + ([QUOTE] + x)
  {
    assert Quote(a) + x == [QUOTE] + (Escape(a) + ([QUOTE] + x));
  }

  // ---- where a value's text ends ----

  /** The units up to the first comma or closing bracket outside brackets and strings, `depth` brackets deep. */
  function Scan(t: Text, depth: nat): (r: nat) {
    if t == [] then 0
    else if t[0] == QUOTE then 1 + ScanString(t[1..], depth)
    else if t[0] == OPEN_LIST || t[0] == OPEN_OBJECT then 1 + Scan(t[1..], depth + 1)
    else if t[0] == CLOSE_LIST || t[0] == CLOSE_OBJECT then if depth == 0 then 0 else 1 + Scan(t[1..], depth - 1)
    else if t[0] == COMMA then if depth == 0 then 0 else 1 + Scan(t[1..], depth)
    else 1 + Scan(t[1..], depth)
  }

  function ScanString(t: Text, depth: nat): (r: nat) {
    if t == [] then 0
    else if t[0] == QUOTE then 1 + Scan(t[1..], depth)
    else if t[0] == BACKSLASH && |t| >= 2 then 2 + ScanString(t[2..], depth)
    else 1 + ScanString(t[1..], depth)
  }

  /** A scan at `depth` or deeper passes over all of `t`. */
  ghost predicate Solid(t: Text, depth: nat) {
    forall rest: Text, d: nat :: d >= depth ==> Scan(t + rest, d) == |t| + Scan(rest, d)
  }

  ghost predicate AllSolid(ts: seq<Text>) {
    forall i :: 0 <= i < |ts| ==> Solid(ts[i], 0)
  }

  lemma ScanUnits(t: Text, rest: Text, d: nat)
    requires forall i :: 0 <= i < |t| ==> t[i] !in {QUOTE, OPEN_LIST, OPEN_OBJECT, CLOSE_LIST, CLOSE_OBJECT, COMMA}
    ensures Scan(t + rest, d) == |t| + Scan(rest, d)
  {
    if t == [] {
      assert t + rest == rest;
    } else {
      assert (t + rest)[1..] == t[1..] + rest;
      ScanUnits(t[1..], rest, d);
    }
  }

  lemma PlainIsSolid(t: Text)
    requires forall i :: 0 <= i < |t| ==> t[i] !in {QUOTE, OPEN_LIST, OPEN_OBJECT, CLOSE_LIST, CLOSE_OBJECT, COMMA}
    ensures Solid(t, 0)
  {
    forall rest: Text, d: nat ensures Scan(t + rest, d) == |t| + Scan(rest, d) {
      ScanUnits(t, rest, d);
    }
  }

  lemma SolidConcat(a: Text, b: Text, depth: nat)
    requires Solid(a, depth) && Solid(b, depth)
    ensures Solid(a + b, depth)
  {
    forall rest: Text, d: nat | d >= depth ensures Scan((a + b) + rest, d) == |a + b| + Scan(rest, d) {
      Assoc(a, b, rest);
    }
  }

  lemma ScanPlain(u: CodeUnit, rest: Text, d: nat)
    requires u != QUOTE && u != BACKSLASH
    ensures ScanString([u] + rest, d) == 1 + ScanString(rest, d)
  {
    assert ([u] + rest)[1..] == rest;
  }

  lemma ScanHex(u: CodeUnit, rest: Text, d: nat)
    ensures ScanString(UnicodeEscape(u) + rest, d) == 6 + ScanString(rest, d)
  {
    var e := UnicodeEscape(u);
    ScanPlain(e[5], rest, d);
    ScanPlain(e[4], [e[5]] + rest, d);
    ScanPlain(e[3], [e[4]] + ([e[5]] + rest), d);
    var tail := [e[3]] + ([e[4]] + ([e[5]] + rest));
    ScanPlain(e[2], tail, d);
    assert (e + rest)[2..] == [e[2]] + tail;
  }

  lemma ScanUnit(u: CodeUnit, rest: Text, d: nat)
    ensures ScanString(EscapeUnit(u) + rest, d) == |EscapeUnit(u)| + ScanString(rest, d)
  {
    var t := EscapeUnit(u) + rest;
    if ShortEscape(u) != LETTER_U {
      assert t[2..] == rest;
    } else if u < 0x20 || Lead(u) || Trail(u) {
      ScanHex(u, rest, d);
    } else {
      assert t[1..] == rest;
    }
  }

  lemma ScanPair(s: Text, rest: Text, d: nat)
    requires |s| >= 2 && Lead(s[0]) && Trail(s[1])
    ensures ScanString(Escape(s) + rest, d) == 2 + ScanString(Escape(s[2..]) + rest, d)
  {
    var more := Escape(s[2..]) + rest;
    ScanPlain(s[1], more, d);
    ScanPlain(s[0], [s[1]] + more, d);
    assert Escape(s) + rest == [s[0]] + ([s[1]] + more);
  }

  lemma ScanSingle(s: Text, rest: Text, d: nat)
    requires s != [] && !(|s| >= 2 && Lead(s[0]) && Trail(s[1]))
    ensures ScanString(Escape(s) + rest, d) == |EscapeUnit(s[0])| + ScanString(Escape(s[1..]) + rest, d)
  {
    ScanUnit(s[0], Escape(s[1..]) + rest, d);
    Assoc(EscapeUnit(s[0]), Escape(s[1..]), rest);
  }

  lemma EscapeLength(s: Text)
    requires s != []
    ensures var pair := |s| >= 2 && Lead(s[0]) && Trail(s[1]);
            |Escape(s)| == if pair then 2 + |Escape(s[2..])| else |EscapeUnit(s[0])| + |Escape(s[1..])|
  {
  }

  lemma {:induction false} ScanEscaped(s: Text, rest: Text, d: nat)
    ensures ScanString(Escape(s) + rest, d) == |Escape(s)| + ScanString(rest, d)
  {
    if s == [] {
      assert Escape(s) + rest == rest;
    } else {
      EscapeLength(s);
      if |s| >= 2 && Lead(s[0]) && Trail(s[1]) {
        ScanPair(s, rest, d);
        ScanEscaped(s[2..], rest, d);
      } else {
        ScanSingle(s, rest, d);
        ScanEscaped(s[1..], rest, d);
      }
    }
  }

  lemma QuoteIsSolid(s: Text)
    ensures Solid(Quote(s), 0)
  {
    forall rest: Text, d: nat ensures Scan(Quote(s) + rest, d) == |Quote(s)| + Scan(rest, d) {
      var tail := [QUOTE] + rest;
      ScanEscaped(s, tail, d);
      QuoteTail(s, rest);
      assert tail[1..] == rest;
    }
  }

  lemma CommaIsSolid()
    ensures Solid([COMMA], 1)
  {
    forall rest: Text, d: nat | d >= 1 ensures Scan([COMMA] + rest, d) == 1 + Scan(rest, d) {
      assert ([COMMA] + rest)[1..] == rest;
    }
  }

  lemma {:induction false} JoinIsSolid(ts: seq<Text>)
    requires AllSolid(ts)
    ensures Solid(Join(ts), 1)
  {
    if ts == [] {
      PlainIsSolid([]);
    } else if |ts| > 1 {
      assert AllSolid(ts[1..]);
      JoinIsSolid(ts[1..]);
      CommaIsSolid();
      SolidConcat([COMMA], Join(ts[1..]), 1);
      assert Solid(ts[0], 1);
      SolidConcat(ts[0], [COMMA] + Join(ts[1..]), 1);
    }
  }

  predicate Brackets(open: CodeUnit, close: CodeUnit) {
    (open == OPEN_LIST && close == CLOSE_LIST) || (open == OPEN_OBJECT && close == CLOSE_OBJECT)
  }

  lemma WrapIsSolid(open: CodeUnit, t: Text, close: CodeUnit)
    requires Brackets(open, close) && Solid(t, 1)
    ensures Solid(Wrap(open, t, close), 0)
  {
    forall rest: Text, d: nat ensures Scan(Wrap(open, t, close) + rest, d) == |t| + 2 + Scan(rest, d) {
      var tail := [close] + rest;
      var all := Wrap(open, t, close) + rest;
      assert all == [open] + (t + tail);
      assert all[1..] == t + tail && tail[1..] == rest;
      assert Scan(t + tail, d + 1) == |t| + Scan(tail, d + 1);
    }
  }

  lemma EntryIsSolid(e: Entry)
    requires Solid(e.text, 0)
    ensures Solid(EntryText(e), 0)
  {
    QuoteIsSolid(e.key);
    PlainIsSolid([COLON]);
    SolidConcat([COLON], e.text, 0);
    SolidConcat(Quote(e.key), [COLON] + e.text, 0);
  }

  lemma EntriesAreSolid(es: seq<Entry>)
    requires forall i :: 0 <= i < |es| ==> Solid(es[i].text, 0)
    ensures AllSolid(EntryTexts(es))
  {
    forall i | 0 <= i < |es| ensures Solid(EntryTexts(es)[i], 0) {
      EntryIsSolid(es[i]);
    }
  }

  /** The text of a value is delimited: a scan passes over it and nothing more. */
  lemma {:induction false} TextIsSolid(v: Value)
    requires Valid(v)
    ensures Solid(Stringify(v), 0)
    decreases v, 1
  {
    match v {
      case Str(s) => QuoteIsSolid(s);
      case Arr(items) =>
        ItemsAreSolid(items);
        JoinIsSolid(ItemTexts(items));
        WrapIsSolid(OPEN_LIST, Join(ItemTexts(items)), CLOSE_LIST);
      case Obj(ms) =>
        MembersAreSolid(ms);
        SortKeeps(Entries(ms));
        var es := SortByKey(Entries(ms));
        assert forall i :: 0 <= i < |es| ==> es[i] in es;
        EntriesAreSolid(es);
        JoinIsSolid(EntryTexts(es));
        WrapIsSolid(OPEN_OBJECT, Join(EntryTexts(es)), CLOSE_OBJECT);
      case _ => PlainIsSolid(Stringify(v));
    }
  }

  lemma ItemsAreSolid(items: seq<Value>)
    requires forall i :: 0 <= i < |items| ==> Valid(items[i])
    ensures AllSolid(ItemTexts(items))
    decreases items, 0
  {
    forall i | 0 <= i < |items| ensures Solid(ItemTexts(items)[i], 0) {
      if Absent(items[i]) { PlainIsSolid([]); } else { TextIsSolid(items[i]); }
    }
  }

  lemma {:induction false} MembersAreSolid(ms: seq<Member>)
    requires forall i :: 0 <= i < |ms| ==> Valid(ms[i].value)
    ensures forall e :: e in Entries(ms) ==> Solid(e.text, 0)
    decreases ms, 0
  {
    if ms != [] {
      MembersAreSolid(ms[1..]);
      TextIsSolid(ms[0].value);
    }
  }

  // ---- sorting ----

  ghost predicate Ascending(es: seq<Entry>) {
    forall i, j :: 0 <= i < j < |es| ==> Before(es[i].key, es[j].key)
  }

  ghost predicate DistinctKeys(es: seq<Entry>) {
    forall i, j :: 0 <= i < j < |es| ==> es[i].key != es[j].key
  }

  lemma BeforeIsStrict(a: Text)
    ensures !Before(a, a)
  {
    if a != [] { BeforeIsStrict(a[1..]); }
  }

  lemma BeforeIsTotal(a: Text, b: Text)
    ensures a == b || Before(a, b) || Before(b, a)
  {
    if a != [] && b != [] && a[0] == b[0] {
      BeforeIsTotal(a[1..], b[1..]);
      assert a == [a[0]] + a[1..] && b == [b[0]] + b[1..];
    }
  }

  lemma BeforeIsTransitive(a: Text, b: Text, c: Text)
    requires Before(a, b) && Before(b, c)
    ensures Before(a, c)
  {
    if a != [] && a[0] == b[0] && b[0] == c[0] {
      BeforeIsTransitive(a[1..], b[1..], c[1..]);
    }
  }

  lemma {:induction false} InsertKeeps(e: Entry, es: seq<Entry>)
    ensures forall x :: x in Insert(e, es) <==> x == e || x in es
  {
    if !(es == [] || Before(e.key, es[0].key)) {
      InsertKeeps(e, es[1..]);
      assert es == [es[0]] + es[1..];
    }
  }

  lemma {:induction false} SortKeeps(es: seq<Entry>)
    ensures forall x :: x in SortByKey(es) <==> x in es
  {
    if es != [] {
      SortKeeps(es[1..]);
      InsertKeeps(es[0], SortByKey(es[1..]));
      assert es == [es[0]] + es[1..];
    }
  }

  lemma {:induction false} InsertAscends(e: Entry, es: seq<Entry>)
    requires Ascending(es) && forall x :: x in es ==> x.key != e.key
    ensures Ascending(Insert(e, es))
  {
    if es == [] {
    } else if Before(e.key, es[0].key) {
      forall j | 0 <= j < |es| ensures Before(e.key, es[j].key) {
        if j > 0 { BeforeIsTransitive(e.key, es[0].key, es[j].key); }
      }
    } else {
      var rest := Insert(e, es[1..]);
      InsertAscends(e, es[1..]);
      InsertKeeps(e, es[1..]);
      BeforeIsTotal(e.key, es[0].key);
      forall j | 0 <= j < |rest| ensures Before(es[0].key, rest[j].key) {
        assert rest[j] in rest;
        if rest[j] != e {
          var k :| 0 <= k < |es[1..]| && es[1..][k] == rest[j];
          assert es[k + 1] == rest[j];
        }
      }
    }
  }

  lemma {:induction false} SortAscends(es: seq<Entry>)
    requires DistinctKeys(es)
    ensures Ascending(SortByKey(es))
  {
    if es != [] {
      SortAscends(es[1..]);
      SortKeeps(es[1..]);
      forall x | x in SortByKey(es[1..]) ensures x.key != es[0].key {
        var k :| 0 <= k < |es[1..]| && es[1..][k] == x;
        assert es[k + 1] == x;
      }
      InsertAscends(es[0], SortByKey(es[1..]));
    }
  }

  lemma FirstIsLeast(a: seq<Entry>, b: seq<Entry>)
    requires Ascending(a) && Ascending(b) && a != [] && b != []
    requires forall x :: x in a <==> x in b
    ensures a[0] == b[0]
  {
    assert a[0] in b && b[0] in a;
    var i :| 0 <= i < |b| && b[i] == a[0];
    var j :| 0 <= j < |a| && a[j] == b[0];
    if i > 0 && j > 0 {
      BeforeIsTransitive(a[0].key, b[0].key, a[0].key);
      BeforeIsStrict(a[0].key);
    }
  }

  lemma AscendingIsDistinct(a: seq<Entry>)
    requires Ascending(a)
    ensures forall i, j :: 0 <= i < j < |a| ==> a[i] != a[j]
  {
    forall i, j | 0 <= i < j < |a| ensures a[i] != a[j] {
      BeforeIsStrict(a[i].key);
    }
  }

  lemma HeadIsIn(a: seq<Entry>)
    ensures a != [] ==> a[0] in a
  {
  }

  /** There is one way to list a set of entries in order. */
  lemma {:induction false} OneOrder(a: seq<Entry>, b: seq<Entry>)
    requires Ascending(a) && Ascending(b)
    requires forall x :: x in a <==> x in b
    ensures a == b
  {
    HeadIsIn(a);
    HeadIsIn(b);
    if a != [] {
      FirstIsLeast(a, b);
      TailElements(a);
      TailElements(b);
      OneOrder(a[1..], b[1..]);
      assert a == [a[0]] + a[1..] && b == [b[0]] + b[1..];
    }
  }

  lemma TailElements(a: seq<Entry>)
    requires Ascending(a) && a != []
    ensures forall x :: x in a[1..] <==> x in a && x != a[0]
  {
    AscendingIsDistinct(a);
    assert a == [a[0]] + a[1..];
  }

  // ---- equal texts ----

  predicate StartsDelimited(t: Text) { t == [] || t[0] == COMMA }

  lemma SolidSplits(a: Text, x: Text, b: Text, y: Text)
    requires Solid(a, 0) && Solid(b, 0) && StartsDelimited(x) && StartsDelimited(y)
    requires a + x == b + y
    ensures a == b && x == y
  {
    assert Scan(a + x, 0) == |a| && Scan(b + y, 0) == |b|;
    assert a == (a + x)[..|a|] && x == (a + x)[|a|..];
    assert b == (b + y)[..|b|] && y == (b + y)[|b|..];
  }

  function JoinTail(ts: seq<Text>): (r: Text)
    requires ts != []
  {
    if |ts| == 1 then [] else [COMMA] + Join(ts[1..])
  }

  lemma JoinParts(ts: seq<Text>)
    requires ts != []
    ensures Join(ts) == ts[0] + JoinTail(ts)
  {
  }

  /** Joining delimited texts with commas loses nothing, except the difference between none and one empty text. */
  lemma {:induction false} JoinIsInjective(a: seq<Text>, b: seq<Text>)
    requires AllSolid(a) && AllSolid(b) && a != [] && b != [] && Join(a) == Join(b)
    ensures a == b
  {
    JoinHeads(a, b);
    if |a| > 1 {
      JoinIsInjective(a[1..], b[1..]);
      assert a == [a[0]] + a[1..] && b == [b[0]] + b[1..];
    } else {
      assert a == [a[0]] && b == [b[0]];
    }
  }

  lemma JoinHeads(a: seq<Text>, b: seq<Text>)
    requires AllSolid(a) && AllSolid(b) && a != [] && b != [] && Join(a) == Join(b)
    ensures a[0] == b[0] && (|a| == 1 <==> |b| == 1) && (|a| > 1 ==> Join(a[1..]) == Join(b[1..]))
  {
    JoinParts(a);
    JoinParts(b);
    SolidSplits(a[0], JoinTail(a), b[0], JoinTail(b));
    assert |JoinTail(a)| == |JoinTail(b)|;
    if |a| > 1 {
      assert JoinTail(a)[1..] == Join(a[1..]) && JoinTail(b)[1..] == Join(b[1..]);
    }
  }

  lemma EntriesShow(es: seq<Entry>)
    ensures Join(EntryTexts(es)) == [] <==> es == []
  {
    if es != [] {
      JoinParts(EntryTexts(es));
      assert EntryTexts(es)[0] == EntryText(es[0]) && |EntryText(es[0])| > 0;
    }
  }

  lemma EntryTextsInjective(a: seq<Entry>, b: seq<Entry>)
    requires forall i :: 0 <= i < |a| ==> Solid(a[i].text, 0)
    requires forall i :: 0 <= i < |b| ==> Solid(b[i].text, 0)
    requires Join(EntryTexts(a)) == Join(EntryTexts(b))
    ensures a == b
  {
    EntriesAreSolid(a);
    EntriesAreSolid(b);
    EntriesShow(a);
    EntriesShow(b);
    if a != [] {
      JoinIsInjective(EntryTexts(a), EntryTexts(b));
      forall i | 0 <= i < |a| ensures a[i] == b[i] {
        assert EntryTexts(a)[i] == EntryTexts(b)[i];
        QuoteSplits(a[i].key, [COLON] + a[i].text, b[i].key, [COLON] + b[i].text);
        assert ([COLON] + a[i].text)[1..] == a[i].text && ([COLON] + b[i].text)[1..] == b[i].text;
      }
    }
  }

  lemma WrapInjective(open: CodeUnit, a: Text, b: Text, close: CodeUnit)
    requires Wrap(open, a, close) == Wrap(open, b, close)
    ensures a == b
  {
    var x, y := Wrap(open, a, close), Wrap(open, b, close);
    assert a == x[1..|x| - 1] && b == y[1..|y| - 1];
  }

  // ---- entries and meanings of members ----

  lemma {:induction false} EntriesAreMembers(ms: seq<Member>)
    ensures forall m :: m in ms && !m.value.Function? ==> Entry(m.key, Stringify(m.value)) in Entries(ms)
    ensures forall e :: e in Entries(ms) ==>
              exists m :: m in ms && !m.value.Function? && e == Entry(m.key, Stringify(m.value))
  {
    if ms != [] {
      EntriesAreMembers(ms[1..]);
      assert ms == [ms[0]] + ms[1..];
      forall e | e in Entries(ms)
        ensures exists m :: m in ms && !m.value.Function? && e == Entry(m.key, Stringify(m.value))
      {
        if e in Entries(ms[1..]) {
          var m :| m in ms[1..] && !m.value.Function? && e == Entry(m.key, Stringify(m.value));
          assert m in ms;
        } else {
          assert ms[0] in ms;
        }
      }
    }
  }

  predicate DistinctMembers(ms: seq<Member>) {
    forall i, j :: 0 <= i < j < |ms| ==> ms[i].key != ms[j].key
  }

  lemma {:induction false} EntriesAreDistinct(ms: seq<Member>)
    requires DistinctMembers(ms)
    ensures DistinctKeys(Entries(ms))
  {
    if ms != [] {
      EntriesAreDistinct(ms[1..]);
      EntriesAreMembers(ms[1..]);
      var es := Entries(ms[1..]);
      forall j | 0 <= j < |es| ensures es[j].key != ms[0].key {
        assert es[j] in es;
        var m :| m in ms[1..] && !m.value.Function? && es[j] == Entry(m.key, Stringify(m.value));
        var k :| 0 <= k < |ms[1..]| && ms[1..][k] == m;
        assert ms[k + 1] == m;
      }
    }
  }

  lemma LaterKeysDiffer(ms: seq<Member>, m: Member)
    requires DistinctMembers(ms) && ms != [] && m in ms[1..]
    ensures m.key != ms[0].key
  {
    var k :| 0 <= k < |ms[1..]| && ms[1..][k] == m;
    assert ms[k + 1] == m;
  }

  lemma {:induction false} MeansMembersAt(ms: seq<Member>, m: Member)
    requires DistinctMembers(ms) && m in ms && !m.value.Function?
    ensures m.key in MeansMembers(ms) && MeansMembers(ms)[m.key] == Means(m.value)
  {
    if m != ms[0] {
      assert m in ms[1..];
      LaterKeysDiffer(ms, m);
      MeansMembersAt(ms[1..], m);
    }
  }

  lemma {:induction false} MemberMeant(ms: seq<Member>, key: Text) returns (m: Member)
    requires key in MeansMembers(ms)
    ensures m in ms && !m.value.Function? && m.key == key
  {
    if !ms[0].value.Function? && ms[0].key == key {
      m := ms[0];
    } else {
      m := MemberMeant(ms[1..], key);
    }
  }

  /** The map holds exactly the members that are not functions. */
  lemma MeansMembersIs(ms: seq<Member>)
    requires DistinctMembers(ms)
    ensures forall m :: m in ms && !m.value.Function? ==>
              m.key in MeansMembers(ms) && MeansMembers(ms)[m.key] == Means(m.value)
    ensures forall k :: k in MeansMembers(ms) ==> exists m :: m in ms && !m.value.Function? && m.key == k
  {
    forall m | m in ms && !m.value.Function?
      ensures m.key in MeansMembers(ms) && MeansMembers(ms)[m.key] == Means(m.value)
    {
      MeansMembersAt(ms, m);
    }
    forall k | k in MeansMembers(ms) ensures exists m :: m in ms && !m.value.Function? && m.key == k {
      var m := MemberMeant(ms, k);
    }
  }

  lemma SameEntriesSameOrder(a: seq<Member>, b: seq<Member>)
    requires DistinctMembers(a) && DistinctMembers(b)
    requires forall e :: e in Entries(a) <==> e in Entries(b)
    ensures SortByKey(Entries(a)) == SortByKey(Entries(b))
  {
    EntriesAreDistinct(a);
    EntriesAreDistinct(b);
    SortAscends(Entries(a));
    SortAscends(Entries(b));
    SortKeeps(Entries(a));
    SortKeeps(Entries(b));
    OneOrder(SortByKey(Entries(a)), SortByKey(Entries(b)));
  }

  /** Values of one meaning have one text, on either side of a member. */
  ghost predicate Faithful(a: Value, b: Value) {
    Stringify(a) == Stringify(b) <==> Means(a) == Means(b)
  }

  lemma SubsetOfEntries(a: seq<Member>, b: seq<Member>)
    requires DistinctMembers(a) && DistinctMembers(b) && MeansMembers(a) == MeansMembers(b)
    requires forall m, n :: m in a && n in b ==> Faithful(m.value, n.value)
    ensures forall e :: e in Entries(a) ==> e in Entries(b)
  {
    EntriesAreMembers(a);
    EntriesAreMembers(b);
    MeansMembersIs(a);
    MeansMembersIs(b);
    forall e | e in Entries(a) ensures e in Entries(b) {
      var m :| m in a && !m.value.Function? && e == Entry(m.key, Stringify(m.value));
      assert m.key in MeansMembers(b);
      var n :| n in b && !n.value.Function? && n.key == m.key;
      assert Faithful(m.value, n.value);
      assert Entry(n.key, Stringify(n.value)) in Entries(b);
    }
  }

  lemma SubsetOfMeanings(a: seq<Member>, b: seq<Member>)
    requires DistinctMembers(a) && DistinctMembers(b)
    requires forall e :: e in Entries(a) ==> e in Entries(b)
    requires forall m, n :: m in a && n in b ==> Faithful(m.value, n.value)
    ensures forall k :: k in MeansMembers(a) ==> k in MeansMembers(b) && MeansMembers(a)[k] == MeansMembers(b)[k]
  {
    EntriesAreMembers(a);
    EntriesAreMembers(b);
    MeansMembersIs(a);
    MeansMembersIs(b);
    forall k | k in MeansMembers(a)
      ensures k in MeansMembers(b) && MeansMembers(a)[k] == MeansMembers(b)[k]
    {
      var m :| m in a && !m.value.Function? && m.key == k;
      var e := Entry(m.key, Stringify(m.value));
      assert e in Entries(a);
      assert e in Entries(b);
      var n :| n in b && !n.value.Function? && e == Entry(n.key, Stringify(n.value));
      assert Faithful(m.value, n.value);
    }
  }

  lemma ObjectsAgree(a: seq<Member>, b: seq<Member>)
    requires Valid(Obj(a)) && Valid(Obj(b))
    requires forall m, n :: m in a && n in b ==> Faithful(m.value, n.value)
    ensures Faithful(Obj(a), Obj(b))
  {
    assert forall m, n :: m in b && n in a ==> (Faithful(m.value, n.value) <== Faithful(n.value, m.value));
    if Means(Obj(a)) == Means(Obj(b)) {
      SubsetOfEntries(a, b);
      SubsetOfEntries(b, a);
      SameEntriesSameOrder(a, b);
    }
    if Stringify(Obj(a)) == Stringify(Obj(b)) {
      var x, y := SortByKey(Entries(a)), SortByKey(Entries(b));
      WrapInjective(OPEN_OBJECT, Join(EntryTexts(x)), Join(EntryTexts(y)), CLOSE_OBJECT);
      MembersAreSolid(a);
      MembersAreSolid(b);
      SortKeeps(Entries(a));
      SortKeeps(Entries(b));
      assert forall i :: 0 <= i < |x| ==> x[i] in x;
      assert forall i :: 0 <= i < |y| ==> y[i] in y;
      EntryTextsInjective(x, y);
      SubsetOfMeanings(a, b);
      SubsetOfMeanings(b, a);
      assert MeansMembers(a) == MeansMembers(b);
    }
  }

  // ---- lists ----

  predicate OneAbsent(items: seq<Value>) { |items| == 1 && Absent(items[0]) }

  lemma FirstUnit(v: Value)
    requires Valid(v)
    ensures Stringify(v) != []
    ensures v.Str? ==> Stringify(v)[0] == QUOTE
    ensures v.Arr? ==> Stringify(v)[0] == OPEN_LIST
    ensures v.Obj? ==> Stringify(v)[0] == OPEN_OBJECT
    ensures v.Num? ==> Stringify(v)[0] !in {QUOTE, OPEN_LIST, OPEN_OBJECT, 0x6E, 0x74, 0x66, 0x75}
  {
  }

  lemma ItemTextsMean(a: seq<Value>, b: seq<Value>)
    requires forall i :: 0 <= i < |a| ==> Valid(a[i])
    requires forall i :: 0 <= i < |b| ==> Valid(b[i])
    requires forall i, j :: 0 <= i < |a| && 0 <= j < |b| ==> Faithful(a[i], b[j])
    ensures ItemTexts(a) == ItemTexts(b) <==> MeansItems(a) == MeansItems(b)
  {
    if |a| == |b| {
      forall i | 0 <= i < |a| ensures ItemTexts(a)[i] == ItemTexts(b)[i] <==> MeansItems(a)[i] == MeansItems(b)[i] {
        FirstUnit(a[i]);
        FirstUnit(b[i]);
        assert Faithful(a[i], b[i]);
        AbsentMeans(a[i]);
        AbsentMeans(b[i]);
      }
      if ItemTexts(a) == ItemTexts(b) { assert MeansItems(a) == MeansItems(b); }
      if MeansItems(a) == MeansItems(b) { assert ItemTexts(a) == ItemTexts(b); }
    }
  }

  lemma AbsentMeans(v: Value)
    ensures Absent(v) <==> Means(v) == MUndefined
  {
  }

  lemma JoinOfAbsent(items: seq<Value>)
    requires forall i :: 0 <= i < |items| ==> Valid(items[i])
    ensures Join(ItemTexts(items)) == [] <==> items == [] || OneAbsent(items)
  {
    if items != [] {
      FirstUnit(items[0]);
      JoinParts(ItemTexts(items));
      assert |JoinTail(ItemTexts(items))| == 0 <==> |items| == 1;
      assert ItemTexts(items)[0] == [] <==> Absent(items[0]);
    }
  }

  lemma MeansOfAbsent(items: seq<Value>)
    ensures Means(Arr(items)) == MArr([]) <==> items == [] || OneAbsent(items)
  {
    assert |MeansItems(items)| == |items|;
  }

  lemma ListsAgree(a: seq<Value>, b: seq<Value>)
    requires Valid(Arr(a)) && Valid(Arr(b))
    requires forall i, j :: 0 <= i < |a| && 0 <= j < |b| ==> Faithful(a[i], b[j])
    ensures Faithful(Arr(a), Arr(b))
  {
    var x, y := Join(ItemTexts(a)), Join(ItemTexts(b));
    if Stringify(Arr(a)) == Stringify(Arr(b)) { WrapInjective(OPEN_LIST, x, y, CLOSE_LIST); }
    JoinOfAbsent(a);
    JoinOfAbsent(b);
    MeansOfAbsent(a);
    MeansOfAbsent(b);
    if x != [] && y != [] {
      ItemsAreSolid(a);
      ItemsAreSolid(b);
      if x == y { JoinIsInjective(ItemTexts(a), ItemTexts(b)); }
      ItemTextsMean(a, b);
    }
  }

  // ---- the law ----

  lemma DifferentKinds(a: Value, b: Value)
    requires Valid(a) && Valid(b) && !(a.Arr? && b.Arr?) && !(a.Obj? && b.Obj?)
    ensures Faithful(a, b)
  {
    FirstUnit(a);
    FirstUnit(b);
    if a.Str? && b.Str? && Quote(a.s) == Quote(b.s) {
      assert Quote(a.s) + [] == Quote(a.s) && Quote(b.s) + [] == Quote(b.s);
      QuoteSplits(a.s, [], b.s, []);
    }
  }

  /** Two values have the same text exactly when they have the same meaning. */
  lemma {:induction false} TextMeans(a: Value, b: Value)
    requires Valid(a) && Valid(b)
    ensures Stringify(a) == Stringify(b) <==> Means(a) == Means(b)
    decreases a
  {
    if a.Arr? && b.Arr? {
      forall i, j | 0 <= i < |a.items| && 0 <= j < |b.items| ensures Faithful(a.items[i], b.items[j]) {
        TextMeans(a.items[i], b.items[j]);
      }
      ListsAgree(a.items, b.items);
    } else if a.Obj? && b.Obj? {
      forall m, n | m in a.members && n in b.members ensures Faithful(m.value, n.value) {
        TextMeans(m.value, n.value);
      }
      ObjectsAgree(a.members, b.members);
    } else {
      DifferentKinds(a, b);
    }
    assert Faithful(a, b);
  }

  ghost predicate Permutes(a: seq<Member>, b: seq<Member>) {
    |a| == |b| && forall m :: m in a <==> m in b
  }

  /** Reordering the members of an object changes nothing. */
  lemma KeyOrderIsForgotten(a: seq<Member>, b: seq<Member>)
    requires Valid(Obj(a)) && Valid(Obj(b)) && Permutes(a, b)
    ensures Stringify(Obj(a)) == Stringify(Obj(b))
  {
    MeansMembersIs(a);
    MeansMembersIs(b);
    assert MeansMembers(a) == MeansMembers(b);
    TextMeans(Obj(a), Obj(b));
  }
}
