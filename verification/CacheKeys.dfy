/** packages/cache/src/cache.ts: argumentsSimpleKey, and the method keys built on it. */
module CacheKeys {
  import opened Common

  predicate NumberChar(c: char) { c in DIGITS || c in "+-.eINafinty" }

  /** `String(x)` of a number consists of such characters. */
  predicate IsNumberText(t: string) {
    t != "" && forall i :: 0 <= i < |t| ==> NumberChar(t[i])
  }

  type NumberText = t: string | IsNumberText(t) witness "0"

  /** One call argument, as far as the key sees it: its kind and, for most kinds, a text. Different arguments can
      look alike, such as 0 and -0. `Opaque` is an argument that no branch can serialize or whose `toJSON` or
      `JSON.stringify` throws; `Raises` is one whose own `toString` throws, which nothing catches. */
  datatype Arg =
    | Null
    | Undefined
    | Str(text: string)
    | Num(digits: NumberText)
    | Bool(value: bool)
    | ToJson(text: string)
    | Plain(text: string)
    | ToText(text: string)
    | Opaque
    | Raises

  /** The arguments that contribute to a key. */
  predicate Keyed(a: Arg) { !a.Opaque? && !a.Raises? }

  function BoolText(b: bool): (s: string) {
    if b then "true" else "false"
  }

  /** A tag, a length, a colon, and what follows. */
  function Headed(tag: char, n: nat, body: string): (s: string)
    ensures s != "" && s[0] == tag && |s| == 2 + |Decimal(n)| + |body|
  {
    [tag] + (Decimal(n) + (":" + body))
  }

  function Tagged(tag: char, text: string): (s: string) {
    Headed(tag, |text|, text)
  }

  function TagOf(a: Arg): (tag: char)
    requires Keyed(a) && !a.Null? && !a.Undefined?
    ensures tag in "SDBJOT"
  {
    match a
    case Str(_) => 'S'
    case Num(_) => 'D'
    case Bool(_) => 'B'
    case ToJson(_) => 'J'
    case Plain(_) => 'O'
    case ToText(_) => 'T'
  }

  function TextOf(a: Arg): (text: string)
    requires Keyed(a) && !a.Null? && !a.Undefined?
  {
    if a.Bool? then BoolText(a.value) else if a.Num? then a.digits else a.text
  }

  function EncodeArg(a: Arg): (s: string)
    requires Keyed(a)
    ensures s != ""
  {
    if a.Null? then "N" else if a.Undefined? then "X" else Tagged(TagOf(a), TextOf(a))
  }

  predicate Serializable(args: seq<Arg>) {
    forall i :: 0 <= i < |args| ==> Keyed(args[i])
  }

  /** `parts.join("")`. */
  function Join(parts: seq<string>): (s: string)
  {
    if parts == [] then "" else parts[0] + Join(parts[1..])
  }

  function Parts(args: seq<Arg>): (parts: seq<string>)
    requires Serializable(args)
    ensures |parts| == |args|
  {
    seq(|args|, i requires 0 <= i < |args| => EncodeArg(args[i]))
  }

  function Encode(args: seq<Arg>): (s: string)
    requires Serializable(args)
  {
    Join(Parts(args))
  }

  /** What a key generator does: give a key, give undefined, or throw. */
  datatype KeyResult = Key(text: string) | NoKey | Raised

  /** The first argument without a text decides. */
  function SimpleKey(args: seq<Arg>): (key: KeyResult)
    ensures key.Key? <==> Serializable(args)
    ensures key.Raised? ==> exists i :: 0 <= i < |args| && args[i].Raises?
  {
    if Serializable(args) then Key(Encode(args)) else FirstFailure(args)
  }

  function FirstFailure(args: seq<Arg>): (key: KeyResult)
    requires !Serializable(args)
    ensures key.NoKey? || (key.Raised? && exists i :: 0 <= i < |args| && args[i].Raises?)
  {
    if args[0].Opaque? then NoKey
    else if args[0].Raises? then Raised
    else
      assert forall i :: 0 <= i < |args[1..]| ==> args[1..][i] == args[i + 1];
      FirstFailure(args[1..])
  }

  lemma {:induction false} FailsAt(args: seq<Arg>, i: nat)
    requires i < |args| && Serializable(args[..i]) && !Keyed(args[i])
    ensures SimpleKey(args) == if args[i].Opaque? then NoKey else Raised
  {
    if i > 0 {
      assert args[..i][0] == args[0];
      assert args[1..][..i - 1] == args[..i][1..];
      FailsAt(args[1..], i - 1);
    }
  }

  lemma OneMorePart(args: seq<Arg>, i: nat)
    requires i < |args| && Serializable(args[..i]) && Keyed(args[i])
    ensures Serializable(args[..i + 1]) && Parts(args[..i + 1]) == Parts(args[..i]) + [EncodeArg(args[i])]
  {
    assert args[..i + 1] == args[..i] + [args[i]];
  }

  /** `argumentsSimpleKey`. */
  method ArgumentsSimpleKey(args: seq<Arg>) returns (key: KeyResult)
    ensures key == SimpleKey(args)
  {
    var parts: seq<string> := [];
    for i := 0 to |args|
      invariant Serializable(args[..i]) && parts == Parts(args[..i])
    {
      if args[i].Opaque? {
        FailsAt(args, i);
        return NoKey;
      }
      if args[i].Raises? {
        FailsAt(args, i);
        return Raised;
      }
      OneMorePart(args, i);
      parts := parts + [EncodeArg(args[i])];
    }
    assert args[..|args|] == args;
    return Key(Join(parts));
  }

  lemma CutAppend(a: string, b: string)
    ensures (a + b)[..|a|] == a && (a + b)[|a|..] == b
  {
  }

  lemma EncodeCons(a: Arg, args: seq<Arg>)
    requires Keyed(a) && Serializable(args)
    ensures Serializable([a] + args) && Encode([a] + args) == EncodeArg(a) + Encode(args)
  {
    assert Parts([a] + args)[1..] == Parts(args);
  }

  lemma EncodeFirst(args: seq<Arg>)
    requires args != [] && Serializable(args)
    ensures Encode(args) == EncodeArg(args[0]) + Encode(args[1..])
  {
    EncodeCons(args[0], args[1..]);
    assert args == [args[0]] + args[1..];
  }

  // ---- reading a key back ----

  function DigitValue(c: char): (d: nat)
    requires c in DIGITS
    ensures d < 10 && DIGITS[d] == c
  {
    if c == '0' then 0 else if c == '1' then 1 else if c == '2' then 2 else if c == '3' then 3
    else if c == '4' then 4 else if c == '5' then 5 else if c == '6' then 6 else if c == '7' then 7
    else if c == '8' then 8 else 9
  }

  /** The number the leading digits denote, `acc` being the value of those already read, and the rest. */
  function ReadNumber(s: string, acc: nat): (r: (nat, string))
    ensures |r.1| <= |s|
    decreases |s|
  {
    if s == "" || s[0] !in DIGITS then (acc, s) else ReadNumber(s[1..], 10 * acc + DigitValue(s[0]))
  }

  lemma DigitRoundTrip(d: nat)
    requires d < 10
    ensures DIGITS[d] in DIGITS && DigitValue(DIGITS[d]) == d
  {
  }

  lemma ReadDigit(d: nat, t: string, acc: nat)
    requires d < 10
    ensures ReadNumber([DIGITS[d]] + t, acc) == ReadNumber(t, 10 * acc + d)
  {
    DigitRoundTrip(d);
    CutAppend([DIGITS[d]], t);
  }

  lemma {:induction false} NumberRoundTrip(n: nat, t: string)
    ensures ReadNumber(Decimal(n) + t, 0) == ReadNumber(t, n)
    decreases n
  {
    var d: string := [DIGITS[n % 10]];
    if n < 10 {
      ReadDigit(n, t, 0);
    } else {
      Assoc(Decimal(n / 10), d, t);
      NumberRoundTrip(n / 10, d + t);
      ReadDigit(n % 10, t, n / 10);
    }
  }

  function MakeArg(tag: char, text: string): (a: Option<Arg>) {
    match tag
    case 'S' => Some(Str(text))
    case 'D' => if IsNumberText(text) then Some(Num(text)) else None
    case 'B' => if text == "true" then Some(Bool(true)) else if text == "false" then Some(Bool(false)) else None
    case 'J' => Some(ToJson(text))
    case 'O' => Some(Plain(text))
    case 'T' => Some(ToText(text))
    case _ => None
  }

  /** The length after a tag, and what follows its colon. */
  function Split(s: string): (r: Option<(nat, string)>)
    requires s != ""
    ensures r.Some? ==> |r.value.1| < |s| - 1
  {
    var (n, rest) := ReadNumber(s[1..], 0);
    if rest == "" || rest[0] != ':' then None else Some((n, rest[1..]))
  }

  lemma SplitHeaded(tag: char, n: nat, body: string)
    ensures Split(Headed(tag, n, body)) == Some((n, body))
  {
    var tail := ":" + body;
    assert Headed(tag, n, body)[1..] == Decimal(n) + tail;
    NumberRoundTrip(n, tail);
    assert tail[0] == ':' && tail[1..] == body;
  }

  lemma HeadedAppend(tag: char, n: nat, body: string, rest: string)
    ensures Headed(tag, n, body) + rest == Headed(tag, n, body + rest)
  {
    Assoc(":", body, rest);
    Assoc(Decimal(n), ":" + body, rest);
    Assoc([tag], Decimal(n) + (":" + body), rest);
  }

  /** The first argument of a key and the rest of the key. */
  function DecodeArg(s: string): (r: Option<(Arg, string)>)
    ensures r.Some? ==> |r.value.1| < |s| && Keyed(r.value.0)
  {
    if s == "" then None
    else if s[0] == 'N' then Some((Null, s[1..]))
    else if s[0] == 'X' then Some((Undefined, s[1..]))
    else
      match Split(s)
      case None => None
      case Some(p) =>
        if |p.1| < p.0 || MakeArg(s[0], p.1[..p.0]).None? then None
        else Some((MakeArg(s[0], p.1[..p.0]).value, p.1[p.0..]))
  }

  function Decode(s: string): (r: Option<seq<Arg>>)
    ensures r.Some? ==> Serializable(r.value)
    decreases |s|
  {
    if s == "" then Some([]) else
      match DecodeArg(s)
      case None => None
      case Some(first) =>
        match Decode(first.1)
        case None => None
        case Some(args) => Some([first.0] + args)
  }

  lemma MakeArgRoundTrip(a: Arg)
    requires Keyed(a) && !a.Null? && !a.Undefined?
    ensures MakeArg(TagOf(a), TextOf(a)) == Some(a)
  {
  }

  lemma DecodeArgRoundTrip(a: Arg, rest: string)
    requires Keyed(a)
    ensures DecodeArg(EncodeArg(a) + rest) == Some((a, rest))
  {
    if a.Null? || a.Undefined? {
      CutAppend(EncodeArg(a), rest);
    } else {
      MakeArgRoundTrip(a);
      var tag, text := TagOf(a), TextOf(a);
      HeadedAppend(tag, |text|, text, rest);
      SplitHeaded(tag, |text|, text + rest);
      CutAppend(text, rest);
    }
  }

  /** The key determines the arguments: it can be read back, length prefixes included. */
  lemma {:induction false} KeyRoundTrip(args: seq<Arg>)
    requires Serializable(args)
    ensures Decode(Encode(args)) == Some(args)
  {
    if args != [] {
      EncodeFirst(args);
      DecodeArgRoundTrip(args[0], Encode(args[1..]));
      KeyRoundTrip(args[1..]);
      assert args == [args[0]] + args[1..];
    }
  }

  lemma KeyIsInjective(a: seq<Arg>, b: seq<Arg>)
    requires Serializable(a) && Serializable(b) && Encode(a) == Encode(b)
    ensures a == b
  {
    KeyRoundTrip(a);
    KeyRoundTrip(b);
  }

  // ---- keys of different methods ----

  /** The default methodKeyGenerator under the `simple` strategy. */
  function MethodKey(name: string, args: seq<Arg>): (key: KeyResult)
    ensures key.Key? <==> Serializable(args)
    ensures key.Raised? ==> exists i :: 0 <= i < |args| && args[i].Raises?
  {
    match SimpleKey(args)
    case Key(text) => Key(name + ("$" + text))
    case failure => failure
  }

  /** `w` ends inside the text of an argument: whole arguments, then a tag, a length, a colon and fewer
      characters than that length. (A `$` cannot follow inside a number's or a boolean's text.) */
  predicate EndsInsideText(w: string)
    decreases |w|
  {
    w != "" &&
    if w[0] == 'N' || w[0] == 'X' then EndsInsideText(w[1..])
    else
      && w[0] in "SDBJOT" && Split(w).Some?
      && var (n, body) := Split(w).value;
         && w == Headed(w[0], n, body)
         && if |body| < n then w[0] in "SJOT"
            else MakeArg(w[0], body[..n]).Some? && EndsInsideText(body[n..])
  }

  lemma InsideOpen(tag: char, n: nat, body: string)
    requires tag in "SJOT" && |body| < n
    ensures EndsInsideText(Headed(tag, n, body))
  {
    SplitHeaded(tag, n, body);
  }

  /** A whole argument at the front does not matter. */
  lemma SkipArg(a: Arg, w: string)
    requires Keyed(a)
    ensures EndsInsideText(EncodeArg(a) + w) == EndsInsideText(w)
  {
    if a.Null? || a.Undefined? {
      CutAppend(EncodeArg(a), w);
    } else {
      MakeArgRoundTrip(a);
      var tag, text := TagOf(a), TextOf(a);
      HeadedAppend(tag, |text|, text, w);
      SplitHeaded(tag, |text|, text + w);
      CutAppend(text, w);
    }
  }

  lemma HeadHasNoDollar(tag: char, n: nat, body: string, i: nat)
    requires tag != '$' && i < 2 + |Decimal(n)|
    ensures Headed(tag, n, body)[i] != '$'
  {
    var d := Decimal(n);
    if 0 < i <= |d| { assert Headed(tag, n, body)[i] == d[i - 1]; }
  }

  lemma HeadedTake(tag: char, n: nat, body: string, k: nat)
    requires k <= |body|
    ensures Headed(tag, n, body)[..2 + |Decimal(n)| + k] == Headed(tag, n, body[..k])
    ensures k < |body| ==> Headed(tag, n, body)[2 + |Decimal(n)| + k] == body[k]
  {
    HeadedAppend(tag, n, body[..k], body[k..]);
    assert body == body[..k] + body[k..];
    CutAppend(Headed(tag, n, body[..k]), body[k..]);
  }

  lemma DollarInsideText(tag: char, text: string, w: string)
    requires tag in "SJOT" && w < Tagged(tag, text) && Tagged(tag, text)[|w|] == '$'
    ensures EndsInsideText(w)
  {
    var k := 2 + |Decimal(|text|)|;
    if |w| < k { HeadHasNoDollar(tag, |text|, text, |w|); }
    var taken := |w| - k;
    HeadedTake(tag, |text|, text, taken);
    assert w == Tagged(tag, text)[..k + taken] == Headed(tag, |text|, text[..taken]);
    InsideOpen(tag, |text|, text[..taken]);
  }

  lemma TextHasNoDollar(tag: char, text: string, w: string)
    requires tag != '$' && '$' !in text && w < Tagged(tag, text)
    ensures Tagged(tag, text)[|w|] != '$'
  {
    var k := 2 + |Decimal(|text|)|;
    if |w| < k {
      HeadHasNoDollar(tag, |text|, text, |w|);
    } else {
      HeadedTake(tag, |text|, text, |w| - k);
    }
  }

  lemma NoDollarInText(a: Arg)
    requires a.Bool? || a.Num?
    ensures '$' !in TextOf(a)
  {
    assert !NumberChar('$');
  }

  /** A proper beginning of one argument's key that a `$` follows ends inside that argument's text. */
  lemma DollarInsideArg(a: Arg, w: string)
    requires Keyed(a) && w < EncodeArg(a) && EncodeArg(a)[|w|] == '$'
    ensures EndsInsideText(w)
  {
    if a.Bool? || a.Num? {
      NoDollarInText(a);
      TextHasNoDollar(TagOf(a), TextOf(a), w);
    } else {
      DollarInsideText(TagOf(a), TextOf(a), w);
    }
  }

  lemma {:induction false} DollarInsideKey(a: seq<Arg>, w: string, tail: string)
    requires Serializable(a) && Encode(a) == w + ("$" + tail)
    ensures EndsInsideText(w)
    decreases |a|
  {
    assert a != [];
    EncodeFirst(a);
    var first, rest := EncodeArg(a[0]), Encode(a[1..]);
    CutAppend(first, rest);
    CutAppend(w, "$" + tail);
    var key := first + rest;
    assert key == w + ("$" + tail);
    if |first| <= |w| {
      var w' := w[|first|..];
      assert w == first + w' by { assert key[..|first|] == w[..|first|]; }
      Assoc(first, w', "$" + tail);
      CutAppend(first, w' + ("$" + tail));
      DollarInsideKey(a[1..], w', tail);
      SkipArg(a[0], w');
    } else {
      assert w == key[..|w|] == first[..|w|];
      assert first[|w|] == key[|w|] == '$';
      DollarInsideArg(a[0], w);
    }
  }

  function Nulls(n: nat): (args: seq<Arg>)
    ensures Serializable(args)
  {
    seq(n, _ => Null)
  }

  function Ns(n: nat): (s: string)
    ensures |s| == n
  {
    seq(n, _ => 'N')
  }

  lemma {:induction false} EncodeNulls(n: nat)
    ensures Encode(Nulls(n)) == Ns(n)
  {
    if n > 0 {
      EncodeNulls(n - 1);
      EncodeFirst(Nulls(n));
      assert Nulls(n)[1..] == Nulls(n - 1);
      assert Ns(n) == "N" + Ns(n - 1);
    }
  }

  /** Conversely, when `w` ends inside a text, some argument lists make the two readings of a key agree. */
  lemma {:induction false} InsideTextCollides(w: string) returns (a: seq<Arg>, b: seq<Arg>)
    requires EndsInsideText(w)
    ensures Serializable(a) && Serializable(b) && Encode(a) == w + ("$" + Encode(b))
    decreases |w|
  {
    var n, body, first, rest, open := Peel(w);
    if open {
      a, b := FillText(w[0], n, body);
    } else {
      a, b := InsideTextCollides(rest);
      EncodeCons(first, a);
      Assoc(EncodeArg(first), rest, "$" + Encode(b));
      a := [first] + a;
    }
  }

  /** The front of such a string: the open text itself, or a whole argument before it. */
  lemma Peel(w: string) returns (n: nat, body: string, first: Arg, rest: string, open: bool)
    requires EndsInsideText(w)
    ensures open ==> w[0] in "SJOT" && |body| < n && w == Headed(w[0], n, body)
    ensures !open ==> Keyed(first) && w == EncodeArg(first) + rest && EndsInsideText(rest) && |rest| < |w|
  {
    open, n, body, first, rest := false, 0, "", Null, w[1..];
    if w[0] == 'N' || w[0] == 'X' {
      first := if w[0] == 'N' then Null else Undefined;
      assert w == [w[0]] + rest;
    } else {
      n, body := Split(w).value.0, Split(w).value.1;
      if |body| < n {
        open := true;
      } else {
        first, rest := PeelTagged(w[0], n, body);
      }
    }
  }

  lemma PeelTagged(tag: char, n: nat, body: string) returns (first: Arg, rest: string)
    requires n <= |body| && MakeArg(tag, body[..n]).Some?
    ensures rest == body[n..] && Keyed(first) && Headed(tag, n, body) == EncodeArg(first) + rest
    ensures |rest| < |Headed(tag, n, body)|
  {
    var text := body[..n];
    first, rest := MakeArg(tag, text).value, body[n..];
    WholeArg(tag, text, rest);
    assert body == text + rest && |text| == n;
  }

  lemma MakeArgInverse(tag: char, text: string)
    requires MakeArg(tag, text).Some?
    ensures var a := MakeArg(tag, text).value;
            Keyed(a) && !a.Null? && !a.Undefined? && TagOf(a) == tag && TextOf(a) == text
  {
  }

  lemma WholeArg(tag: char, text: string, rest: string)
    requires MakeArg(tag, text).Some?
    ensures var a := MakeArg(tag, text).value;
            Keyed(a) && EncodeArg(a) + rest == Headed(tag, |text|, text + rest)
  {
    MakeArgInverse(tag, text);
    HeadedAppend(tag, |text|, text, rest);
  }

  lemma FillText(tag: char, n: nat, partial: string) returns (a: seq<Arg>, b: seq<Arg>)
    requires tag in "SJOT" && |partial| < n
    ensures Serializable(a) && Serializable(b)
    ensures Encode(a) == Headed(tag, n, partial) + ("$" + Encode(b))
  {
    var missing := n - |partial| - 1;
    b := Nulls(missing);
    EncodeNulls(missing);
    var text := partial + ("$" + Ns(missing));
    var arg := MakeArg(tag, text).value;
    a := [arg];
    EncodeFirst(a);
    assert Encode(a) == EncodeArg(arg) + "" == Tagged(tag, text);
    HeadedAppend(tag, n, partial, "$" + Ns(missing));
  }

  /** The two names can produce one key for some calls. */
  ghost predicate Collide(p: string, q: string) {
    exists a, b :: Serializable(a) && Serializable(b) && p + ("$" + Encode(a)) == q + ("$" + Encode(b))
  }

  /** Exactly which method names can share a key: one of them is the other, a `$`, and a string that ends
      inside the text of an argument. The last is a check on the names alone. */
  predicate Confusable(p: string, q: string) {
    p + "$" <= q && EndsInsideText(q[|p| + 1..])
  }

  lemma LongerNameConfusable(p: string, q: string, a: string, b: string)
    requires |p| < |q| && p + ("$" + a) == q + ("$" + b)
    ensures var w := q[|p| + 1..]; p + "$" <= q && q == p + ("$" + w) && a == w + ("$" + b)
  {
    var key, w := q + ("$" + b), q[|p| + 1..];
    assert key[..|p|] == p == q[..|p|] && key[|p|] == '$' == q[|p|];
    assert q == p + ("$" + w);
    assert a == (p + ("$" + a))[|p| + 1..] == key[|p| + 1..] == w + ("$" + b);
  }

  lemma LongerName(p: string, q: string, w: string, tail: string)
    requires p + "$" <= q && w == q[|p| + 1..]
    ensures p + ("$" + (w + tail)) == q + tail
  {
    assert q == p + "$" + w;
    assert p + ("$" + (w + tail)) == p + "$" + w + tail;
  }

  lemma ConfusableCollide(p: string, q: string)
    requires Confusable(p, q)
    ensures Collide(p, q) && Collide(q, p)
  {
    var w := q[|p| + 1..];
    var a, b := InsideTextCollides(w);
    LongerName(p, q, w, "$" + Encode(b));
  }

  lemma KeysCollideExactlyWhenConfusable(p: string, q: string)
    requires p != q
    ensures Collide(p, q) <==> Confusable(p, q) || Confusable(q, p)
  {
    if Collide(p, q) {
      var a, b :| Serializable(a) && Serializable(b) && p + ("$" + Encode(a)) == q + ("$" + Encode(b));
      if |p| < |q| {
        LongerNameConfusable(p, q, Encode(a), Encode(b));
        DollarInsideKey(a, q[|p| + 1..], Encode(b));
      } else if |q| < |p| {
        LongerNameConfusable(q, p, Encode(b), Encode(a));
        DollarInsideKey(b, p[|q| + 1..], Encode(a));
      } else {
        CutAppend(p, "$" + Encode(a));
        CutAppend(q, "$" + Encode(b));
        assert false;
      }
    }
    if Confusable(p, q) { ConfusableCollide(p, q); }
    if Confusable(q, p) { ConfusableCollide(q, p); }
  }

  lemma {:induction false} TextNeedsColon(w: string)
    requires EndsInsideText(w)
    ensures ':' in w
    decreases |w|
  {
    if w[0] == 'N' || w[0] == 'X' {
      TextNeedsColon(w[1..]);
    } else {
      var n, body := Split(w).value.0, Split(w).value.1;
      assert ':' in (":" + body) && ':' in Decimal(n) + (":" + body);
    }
  }

  /** Names without a colon are never confusable, even names with `$`. */
  lemma NoColonNotConfusable(p: string, q: string)
    requires ':' !in p && ':' !in q
    ensures !Confusable(p, q)
  {
    if Confusable(p, q) {
      TextNeedsColon(q[|p| + 1..]);
      assert false;
    }
  }

  /** Of names that are not confusable, the key determines the name and the arguments. */
  lemma MethodKeysAreInjective(p: string, a: seq<Arg>, q: string, b: seq<Arg>)
    requires p == q || (!Confusable(p, q) && !Confusable(q, p))
    requires MethodKey(p, a).Key? && MethodKey(p, a) == MethodKey(q, b)
    ensures p == q && a == b
  {
    if p != q {
      KeysCollideExactlyWhenConfusable(p, q);
    }
    CutAppend(p, "$" + Encode(a));
    CutAppend(p, "$" + Encode(b));
    CutAppend("$", Encode(a));
    CutAppend("$", Encode(b));
    KeyIsInjective(a, b);
  }

  /** A method named `f$S1:` called without arguments has the key of `f("$")`. */
  lemma ColonNamesCollide()
    ensures MethodKey("f", [Str("$")]) == MethodKey("f$S1:", [])
  {
    EncodeFirst([Str("$")]);
    assert Decimal(1) == ['1'];
    assert Encode([Str("$")]) == Headed('S', 1, "$") + "" == "S1:$";
    assert "f" + ("$" + "S1:$") == "f$S1:" + ("$" + "");
  }
}
