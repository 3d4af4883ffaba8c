/** packages/debug/src/bodycapture.ts: telling text from binary by the bytes alone. */
module BodyCapture {
  import opened Bytes
  import opened Common

  // ---- the sniffer ----

  /** Tab, LF, CR and printable ASCII. */
  predicate Plain(b: byte) { b == 0x09 || b == 0x0A || b == 0x0D || 0x20 <= b <= 0x7E }

  /** How many continuation bytes a lead byte announces; 0 if it is not a lead byte. */
  function Extra(b: byte): (r: nat) {
    if 0xC2 <= b <= 0xDF then 1 else if 0xE0 <= b <= 0xEF then 2 else if 0xF0 <= b <= 0xF4 then 3 else 0
  }

  predicate Continues(b: byte) { 0x80 <= b <= 0xBF }

  predicate AllContinue(bs: seq<byte>) { forall i :: 0 <= i < |bs| ==> Continues(bs[i]) }

  /** The verdict on an inspected window. */
  function Accepts(w: seq<byte>): (r: bool) {
    if w == [] then true
    else if Plain(w[0]) then Accepts(w[1..])
    else if Extra(w[0]) == 0 then false
    else if Extra(w[0]) >= |w| then true
    else AllContinue(w[1..Extra(w[0]) + 1]) && Accepts(w[Extra(w[0]) + 1..])
  }

  /** The bytes looked at: at most `sample` of them, none if that is negative. */
  function Window(buffer: seq<byte>, sample: int): (r: seq<byte>) {
    if sample <= 0 then [] else if |buffer| <= sample then buffer else buffer[..sample]
  }

  /** The bytes behind position i that a sequence announces are continuation bytes. */
  predicate Followed(w: seq<byte>, i: nat, extra: nat)
    requires i + extra < |w|
  {
    forall j :: i < j <= i + extra ==> Continues(w[j])
  }

  /** The verdict on what is left of a window from position i on. */
  function AcceptsFrom(w: seq<byte>, i: nat): (r: bool)
    requires i <= |w|
  {
    Accepts(w[i..])
  }

  lemma PlainNext(w: seq<byte>, i: nat)
    requires i < |w| && Plain(w[i])
    ensures AcceptsFrom(w, i) == AcceptsFrom(w, i + 1)
  {
    assert w[i..][0] == w[i] && w[i..][1..] == w[i + 1..];
  }

  lemma SequenceNext(w: seq<byte>, i: nat)
    requires i < |w| && !Plain(w[i])
    ensures var extra := Extra(w[i]);
            if extra == 0 then !AcceptsFrom(w, i)
            else if i + extra >= |w| then AcceptsFrom(w, i)
            else AcceptsFrom(w, i) == (Followed(w, i, extra) && AcceptsFrom(w, i + extra + 1))
  {
    var v, extra := w[i..], Extra(w[i]);
    assert v[0] == w[i] && |v| == |w| - i;
    if 0 < extra < |v| {
      assert v[extra + 1..] == w[i + extra + 1..];
      var tail := v[1..extra + 1];
      assert forall j :: i < j <= i + extra ==> w[j] == tail[j - i - 1];
      assert forall j :: 0 <= j < extra ==> tail[j] == w[i + 1 + j];
      assert AllContinue(tail) ==> Followed(w, i, extra);
      assert Followed(w, i, extra) ==> AllContinue(tail);
    }
  }

  method LooksLikeText(buffer: seq<byte>, sample: int) returns (text: bool)
    ensures text == Accepts(Window(buffer, sample))
  {
    if |buffer| == 0 {
      return true;
    }
    var limit := if |buffer| < sample then |buffer| else sample;
    ghost var w := Window(buffer, sample);
    var i := 0;
    assert w[0..] == w;
    while i < limit
      invariant 0 <= i <= |w| && |w| == (if limit > 0 then limit else 0) && w <= buffer
      invariant Accepts(w) == AcceptsFrom(w, i)
    {
      var b := buffer[i];
      assert b == w[i];
      if b == 0 {
        SequenceNext(w, i);
        return false;
      }
      if b == 0x09 || b == 0x0A || b == 0x0D || (b >= 0x20 && b <= 0x7E) {
        PlainNext(w, i);
        i := i + 1;
        continue;
      }
      SequenceNext(w, i);
      var extra := 0;
      if b >= 0xC2 && b <= 0xDF {
        extra := 1;
      } else if b >= 0xE0 && b <= 0xEF {
        extra := 2;
      } else if b >= 0xF0 && b <= 0xF4 {
        extra := 3;
      } else {
        return false;
      }
      assert extra == Extra(w[i]) > 0;
      if i + extra >= limit {
        return true;
      }
      for k := 1 to extra + 1
        invariant forall j :: i < j < i + k ==> Continues(w[j])
      {
        var cont := buffer[i + k];
        assert cont == w[i + k];
        if cont < 0x80 || cont > 0xBF {
          assert !Followed(w, i, extra);
          return false;
        }
      }
      assert Followed(w, i, extra);
      i := i + extra + 1;
    }
    assert w[i..] == [];
    return true;
  }

  // ---- the same verdict as a grammar ----

  /** One unit of accepted text: a plain byte, or a lead byte and the continuation bytes it announces. */
  predicate Unit(u: seq<byte>) {
    || (|u| == 1 && Plain(u[0]))
    || (|u| > 1 && Extra(u[0]) == |u| - 1 && AllContinue(u[1..]))
  }

  /** A sequence that goes on past the window; what follows the lead byte is not looked at. */
  predicate Cut(r: seq<byte>) { r != [] && Extra(r[0]) >= |r| }

  predicate AllUnits(us: seq<seq<byte>>) { forall i :: 0 <= i < |us| ==> Unit(us[i]) }

  function Flatten(us: seq<seq<byte>>): (r: seq<byte>) {
    if us == [] then [] else us[0] + Flatten(us[1..])
  }

  ghost predicate Parses(us: seq<seq<byte>>, rest: seq<byte>, w: seq<byte>) {
    AllUnits(us) && (rest == [] || Cut(rest)) && Flatten(us) + rest == w
  }

  lemma UnitAhead(u: seq<byte>, w: seq<byte>)
    requires Unit(u)
    ensures Accepts(u + w) == Accepts(w)
  {
    var all := u + w;
    assert all[|u|..] == w && all[0] == u[0];
    if |u| > 1 {
      assert all[1..|u|] == u[1..];
    }
  }

  lemma CutIsAccepted(r: seq<byte>)
    requires Cut(r)
    ensures Accepts(r)
  {
    assert !Plain(r[0]);
  }

  lemma {:induction false} ParsedIsAccepted(us: seq<seq<byte>>, rest: seq<byte>, w: seq<byte>)
    requires Parses(us, rest, w)
    ensures Accepts(w)
  {
    if us == [] {
      assert w == rest;
      if rest != [] { CutIsAccepted(rest); }
    } else {
      var tail := Flatten(us[1..]) + rest;
      assert w == us[0] + tail;
      UnitAhead(us[0], tail);
      ParsedIsAccepted(us[1..], rest, tail);
    }
  }

  lemma {:induction false} AcceptedParses(w: seq<byte>) returns (us: seq<seq<byte>>, rest: seq<byte>)
    requires Accepts(w)
    ensures Parses(us, rest, w)
    decreases |w|
  {
    if w == [] || (!Plain(w[0]) && Extra(w[0]) >= |w|) {
      us, rest := [], w;
      assert Flatten(us) + rest == w;
    } else {
      var n := if Plain(w[0]) then 1 else Extra(w[0]) + 1;
      var u := w[..n];
      if n > 1 { assert u[1..] == w[1..n]; }
      var us', rest' := AcceptedParses(w[n..]);
      ParsesCons(u, us', rest', w[n..]);
      us, rest := [u] + us', rest';
      assert u + w[n..] == w;
    }
  }

  lemma ParsesCons(u: seq<byte>, us: seq<seq<byte>>, rest: seq<byte>, w: seq<byte>)
    requires Unit(u) && Parses(us, rest, w)
    ensures Parses([u] + us, rest, u + w)
  {
    assert ([u] + us)[1..] == us;
    assert Flatten([u] + us) + rest == u + (Flatten(us) + rest);
  }

  /** Accepted are exactly the windows made of whole units, possibly ending in one that is cut. */
  lemma AcceptsTheGrammar(w: seq<byte>)
    ensures Accepts(w) <==> exists us, rest :: Parses(us, rest, w)
  {
    if Accepts(w) {
      var us, rest := AcceptedParses(w);
    }
    if us, rest :| Parses(us, rest, w) {
      ParsedIsAccepted(us, rest, w);
    }
  }

  lemma CutsCommute(w: seq<byte>, n: nat, k: nat)
    requires 1 <= k <= n <= |w|
    ensures w[..n][k..] == w[k..][..n - k] && w[..n][1..k] == w[1..k]
  {
  }

  /** Looking at less never turns text into binary: accepted windows are closed under prefixes. */
  lemma {:induction false} PrefixIsAccepted(w: seq<byte>, n: nat)
    requires n <= |w| && Accepts(w)
    ensures Accepts(w[..n])
    decreases |w|
  {
    if n > 0 {
      var p := w[..n];
      assert p[0] == w[0];
      var k := if Plain(w[0]) then 1 else Extra(w[0]) + 1;
      if k <= n {
        PrefixIsAccepted(w[k..], n - k);
        CutsCommute(w, n, k);
      }
    }
  }

  lemma SmallerSampleAccepts(buffer: seq<byte>, less: int, more: int)
    requires less <= more && Accepts(Window(buffer, more))
    ensures Accepts(Window(buffer, less))
  {
    var big, small := Window(buffer, more), Window(buffer, less);
    assert |small| <= |big| && small == big[..|small|];
    PrefixIsAccepted(big, |small|);
  }

  // ---- UTF-8, sections 3 and 4 of RFC 3629 ----

  /** A code point that has an encoding: not a surrogate, not above U+10FFFF. */
  predicate Scalar(cp: int) { 0 <= cp < 0xD800 || 0xE000 <= cp <= 0x10FFFF }

  function Encode(cp: int): (u: seq<byte>)
    requires Scalar(cp)
    ensures 1 <= |u| <= 4
  {
    if cp < 0x80 then [cp]
    else if cp < 0x800 then [0xC0 + cp / 64, 0x80 + cp % 64]
    else if cp < 0x10000 then [0xE0 + cp / 64 / 64, 0x80 + cp / 64 % 64, 0x80 + cp % 64]
    else [0xF0 + cp / 64 / 64 / 64, 0x80 + cp / 64 / 64 % 64, 0x80 + cp / 64 % 64, 0x80 + cp % 64]
  }

  predicate Scalars(cps: seq<int>) { forall i :: 0 <= i < |cps| ==> Scalar(cps[i]) }

  function EncodeAll(cps: seq<int>): (r: seq<byte>)
    requires Scalars(cps)
  {
    if cps == [] then [] else Encode(cps[0]) + EncodeAll(cps[1..])
  }

  /** Tab, LF, CR, printable ASCII and everything from U+0080 up. */
  predicate Text(cp: int) { cp == 0x09 || cp == 0x0A || cp == 0x0D || 0x20 <= cp <= 0x7E || cp >= 0x80 }

  /** Where the encoding of the i-th code point begins. */
  function Offset(cps: seq<int>, i: nat): (r: nat)
    requires Scalars(cps) && i <= |cps|
  {
    if i == 0 then 0 else |Encode(cps[0])| + Offset(cps[1..], i - 1)
  }

  lemma {:induction false} OffsetIsLength(cps: seq<int>, i: nat)
    requires Scalars(cps) && i <= |cps|
    ensures Offset(cps, i) == |EncodeAll(cps[..i])|
  {
    if i > 0 {
      OffsetIsLength(cps[1..], i - 1);
      assert cps[..i][1..] == cps[1..][..i - 1];
    }
  }

  lemma EncodedIsUnit(cp: int)
    requires Scalar(cp)
    ensures Text(cp) ==> Unit(Encode(cp))
    ensures !Text(cp) ==> Encode(cp) == [cp] && !Plain(cp) && Extra(cp) == 0
  {
    if 0x80 <= cp < 0x800 {
      assert 2 <= cp / 64 < 32;
    } else if 0x800 <= cp < 0x10000 {
      assert 32 <= cp / 64 < 1024;
      assert 0 <= cp / 64 / 64 < 16;
    } else if 0x10000 <= cp {
      assert 1024 <= cp / 64 <= 0x43FF;
      assert 16 <= cp / 64 / 64 <= 0x10F;
      assert 0 <= cp / 64 / 64 / 64 <= 4;
    }
  }

  /** Every code point whose encoding begins among the first n bytes is text. */
  ghost predicate StartedAreText(cps: seq<int>, n: nat)
    requires Scalars(cps)
  {
    forall i :: 0 <= i < |cps| && Offset(cps, i) < n ==> Text(cps[i])
  }

  lemma StartedSplits(cps: seq<int>, n: nat)
    requires Scalars(cps) && cps != [] && n > 0
    ensures var k := |Encode(cps[0])|;
            StartedAreText(cps, n) <==> Text(cps[0]) && StartedAreText(cps[1..], if n < k then 0 else n - k)
  {
    var k := |Encode(cps[0])|;
    var m := if n < k then 0 else n - k;
    assert Offset(cps, 0) == 0;
    if StartedAreText(cps, n) {
      forall i | 0 <= i < |cps[1..]| && Offset(cps[1..], i) < m ensures Text(cps[1..][i]) {
        assert Offset(cps, i + 1) == k + Offset(cps[1..], i);
      }
    }
    if Text(cps[0]) && StartedAreText(cps[1..], m) {
      forall i | 0 <= i < |cps| && Offset(cps, i) < n ensures Text(cps[i]) {
        if i > 0 {
          assert cps[i] == cps[1..][i - 1];
        }
      }
    }
  }

  lemma CutUnit(u: seq<byte>, n: nat)
    requires Unit(u) && 0 < n < |u|
    ensures Accepts(u[..n])
  {
    CutIsAccepted(u[..n]);
  }

  /** On UTF-8 the verdict on the first n bytes, wherever they end, is right: text exactly when every code
      point that begins there is. */
  lemma {:induction false} WindowOfUtf8(cps: seq<int>, n: nat)
    requires Scalars(cps) && n <= |EncodeAll(cps)|
    ensures Accepts(EncodeAll(cps)[..n]) <==> StartedAreText(cps, n)
    decreases |cps|
  {
    if n > 0 {
      var u, rest := Encode(cps[0]), EncodeAll(cps[1..]);
      var w := EncodeAll(cps)[..n];
      StartedSplits(cps, n);
      EncodedIsUnit(cps[0]);
      if n < |u| {
        assert w == u[..n];
        CutUnit(u, n);
      } else {
        WindowOfUtf8(cps[1..], n - |u|);
        assert w == u + rest[..n - |u|];
        if Text(cps[0]) {
          UnitAhead(u, rest[..n - |u|]);
        }
      }
    }
  }

  predicate AllText(cps: seq<int>) { forall i :: 0 <= i < |cps| ==> Text(cps[i]) }

  /** UTF-8 text passes for every sample limit, also one that cuts a sequence: a `false` proves the bytes
      are not such text. */
  lemma TextIsAccepted(cps: seq<int>, sample: int)
    requires Scalars(cps) && AllText(cps)
    ensures Accepts(Window(EncodeAll(cps), sample))
  {
    var b := EncodeAll(cps);
    var n := |Window(b, sample)|;
    assert Window(b, sample) == b[..n];
    WindowOfUtf8(cps, n);
  }

  lemma {:induction false} OffsetsAreInside(cps: seq<int>, i: nat)
    requires Scalars(cps) && i < |cps|
    ensures Offset(cps, i) < |EncodeAll(cps)|
  {
    if i > 0 { OffsetsAreInside(cps[1..], i - 1); }
  }

  /** Fully inspected UTF-8 is accepted exactly when all its code points are text. */
  lemma InspectedUtf8(cps: seq<int>, sample: int)
    requires Scalars(cps) && |EncodeAll(cps)| <= sample
    ensures Accepts(Window(EncodeAll(cps), sample)) <==> AllText(cps)
  {
    var b := EncodeAll(cps);
    assert Window(b, sample) == b[..|b|];
    WindowOfUtf8(cps, |b|);
    forall i | 0 <= i < |cps| ensures Offset(cps, i) < |b| {
      OffsetsAreInside(cps, i);
    }
  }

  // ---- what is accepted without being UTF-8 ----

  /** The sequences of the syntax in section 4. */
  predicate Syntax(u: seq<byte>) {
    || (|u| == 1 && u[0] <= 0x7F)
    || (|u| == 2 && 0xC2 <= u[0] <= 0xDF && Continues(u[1]))
    || (|u| == 3 && Continues(u[2])
        && ((u[0] == 0xE0 && 0xA0 <= u[1] <= 0xBF) || (0xE1 <= u[0] <= 0xEC && Continues(u[1]))
            || (u[0] == 0xED && 0x80 <= u[1] <= 0x9F) || (0xEE <= u[0] <= 0xEF && Continues(u[1]))))
    || (|u| == 4 && Continues(u[2]) && Continues(u[3])
        && ((u[0] == 0xF0 && 0x90 <= u[1] <= 0xBF) || (0xF1 <= u[0] <= 0xF3 && Continues(u[1]))
            || (u[0] == 0xF4 && 0x80 <= u[1] <= 0x8F)))
  }

  /** The number the payload bits of a sequence spell, 6 bits at a time. */
  function Decode(u: seq<byte>): (r: int)
    requires Syntax(u)
  {
    if |u| == 1 then u[0]
    else if |u| == 2 then Append(Payload(u[0], 0xC0), u[1])
    else if |u| == 3 then Append(Append(Payload(u[0], 0xE0), u[1]), u[2])
    else Append(Append(Append(Payload(u[0], 0xF0), u[1]), u[2]), u[3])
  }

  function Payload(b: byte, mark: int): (r: int) { b as int - mark }

  function Append(high: int, b: byte): (r: int) { high * 64 + Payload(b, 0x80) }

  lemma AppendDigits(high: int, b: byte)
    requires Continues(b)
    ensures Append(high, b) / 64 == high && Append(high, b) % 64 == Payload(b, 0x80)
  {
  }

  /** The syntax of section 4 describes the encodings of section 3, no more and no less. */
  lemma SyntaxIsEncoding(u: seq<byte>)
    requires Syntax(u)
    ensures Scalar(Decode(u)) && Encode(Decode(u)) == u
  {
    if |u| == 2 {
      AppendDigits(Payload(u[0], 0xC0), u[1]);
    } else if |u| == 3 {
      AppendDigits(Payload(u[0], 0xE0), u[1]);
      AppendDigits(Append(Payload(u[0], 0xE0), u[1]), u[2]);
    } else if |u| == 4 {
      LongSyntaxIsEncoding(u);
    }
  }

  lemma LongSyntaxIsEncoding(u: seq<byte>)
    requires Syntax(u) && |u| == 4
    ensures Scalar(Decode(u)) && Encode(Decode(u)) == u
  {
    var a := Append(Payload(u[0], 0xF0), u[1]);
    AppendDigits(Payload(u[0], 0xF0), u[1]);
    assert 16 <= a < 0x110;
    var b := Append(a, u[2]);
    AppendDigits(a, u[2]);
    AppendDigits(b, u[3]);
    assert 0x10000 <= Append(b, u[3]) <= 0x10FFFF;
  }

  lemma EncodingIsSyntax(cp: int)
    requires Scalar(cp)
    ensures Syntax(Encode(cp)) && Decode(Encode(cp)) == cp
  {
    EncodedIsUnit(cp);
    var a := cp / 64;
    var b := a / 64;
    assert cp == a * 64 + cp % 64 && a == b * 64 + a % 64 && b == b / 64 * 64 + b % 64;
  }

  /** The second byte alone decides whether a unit is UTF-8: overlong forms after E0 and F0, surrogates after
      ED and numbers above U+10FFFF after F4 are accepted although they are not. */
  lemma UnitIsUtf8ExactlyWhen(u: seq<byte>)
    requires Unit(u)
    ensures (exists cp :: Scalar(cp) && Encode(cp) == u)
       <==> |u| < 3 || !((u[0] == 0xE0 && u[1] < 0xA0) || (u[0] == 0xED && u[1] > 0x9F)
                         || (u[0] == 0xF0 && u[1] < 0x90) || (u[0] == 0xF4 && u[1] > 0x8F))
  {
    if |u| > 1 {
      assert forall i :: 1 <= i < |u| ==> u[i] == u[1..][i - 1];
    }
    if Syntax(u) { SyntaxIsEncoding(u); }
    if cp :| Scalar(cp) && Encode(cp) == u { EncodingIsSyntax(cp); }
  }

  // ---- what is recorded of a body ----

  /** Contents are the bytes before they are decoded, previews the bytes before they are written in hex. */
  datatype Body =
    | Empty
    | Whole(content: seq<byte>)
    | Truncated(content: seq<byte>, size: nat)
    | Binary(size: nat, preview: seq<byte>)

  const SAMPLE := 1024

  /** `subarray(0, end)`: a negative end counts from the back. */
  function Front(buffer: seq<byte>, end: int): (front: seq<byte>)
    ensures front <= buffer
  {
    if end >= |buffer| then buffer
    else if end >= 0 then buffer[..end]
    else if |buffer| + end >= 0 then buffer[..|buffer| + end]
    else []
  }

  /** `declared` is what the Content-Type says, if there is one. */
  method CaptureBody(buffer: seq<byte>, declared: Option<bool>, bodyLimit: int, binaryPreview: int) returns (body: Body)
    ensures body == Captured(buffer, declared, bodyLimit, binaryPreview)
    ensures body.Empty? <==> buffer == []
    ensures body.Binary? <==>
      buffer != [] && !(if declared.Some? then declared.value else Accepts(Window(buffer, SAMPLE)))
    ensures body.Binary? ==> body.size == |buffer| && body.preview <= buffer
    ensures body.Binary? && binaryPreview >= 0 ==> |body.preview| <= binaryPreview
    ensures body.Whole? || body.Truncated? ==> KeepsText(buffer, bodyLimit, body)
  {
    if |buffer| == 0 {
      return Empty;
    }
    var isText: bool;
    if declared.Some? {
      isText := declared.value;
    } else {
      isText := LooksLikeText(buffer, SAMPLE);
    }
    if !isText {
      return Binary(|buffer|, if binaryPreview <= 0 then [] else Front(buffer, binaryPreview));
    }
    if |buffer| <= bodyLimit {
      return Whole(buffer);
    }
    return Truncated(Front(buffer, bodyLimit), |buffer|);
  }

  function Captured(buffer: seq<byte>, declared: Option<bool>, bodyLimit: int, binaryPreview: int): (r: Body) {
    var isText := if declared.Some? then declared.value else Accepts(Window(buffer, SAMPLE));
    if buffer == [] then Empty
    else if !isText then Binary(|buffer|, if binaryPreview <= 0 then [] else Front(buffer, binaryPreview))
    else if |buffer| <= bodyLimit then Whole(buffer)
    else Truncated(Front(buffer, bodyLimit), |buffer|)
  }

  /** A text body is recorded whole if it fits the limit, and otherwise by its first bytes and its size. */
  ghost predicate KeepsText(bytes: seq<byte>, bodyLimit: int, body: Body) {
    if |bytes| <= bodyLimit then body == Whole(bytes)
    else (
      && body.Truncated? && body.size == |bytes| && body.content <= bytes
      && (bodyLimit >= 0 ==> |body.content| == bodyLimit)
    )
  }

  /** UTF-8 text without a Content-Type is never recorded as binary, whatever the limits. */
  lemma TextIsKept(cps: seq<int>, bodyLimit: int, binaryPreview: int)
    requires Scalars(cps) && AllText(cps) && cps != []
    ensures KeepsText(EncodeAll(cps), bodyLimit, Captured(EncodeAll(cps), None, bodyLimit, binaryPreview))
  {
    TextIsAccepted(cps, SAMPLE);
    OffsetsAreInside(cps, 0);
  }

  /** Only the first kilobyte of an undeclared body is looked at: what follows decides nothing, and a NUL there makes no
      difference, while one within it makes the body binary. */
  lemma OnlyTheFirstKilobyteCounts(buffer: seq<byte>, rest: seq<byte>, bodyLimit: int, binaryPreview: int)
    requires |buffer| >= 1024
    ensures Captured(buffer + rest, None, bodyLimit, binaryPreview).Binary? <==>
              Captured(buffer, None, bodyLimit, binaryPreview).Binary?
    ensures (forall i :: 0 <= i < 1024 ==> Plain(buffer[i])) ==>
              !Captured(buffer + rest, None, bodyLimit, binaryPreview).Binary?
    ensures (forall i :: 0 <= i < 1023 ==> Plain(buffer[i])) && buffer[1023] == 0 ==>
              Captured(buffer, None, bodyLimit, binaryPreview).Binary?
  {
    var w := buffer[..1024];
    assert (buffer + rest)[..1024] == w && (|buffer| == 1024 ==> buffer == w);
    assert Window(buffer, 1024) == w == Window(buffer + rest, 1024);
    if forall i :: 0 <= i < 1023 ==> Plain(buffer[i]) {
      assert w[..1023] + w[1023..] == w && w[1023..] == [buffer[1023]];
      PlainIsSkipped(w[..1023], w[1023..]);
      assert w[1023..][1..] == [];
    }
  }

  lemma {:induction false} PlainIsSkipped(a: seq<byte>, b: seq<byte>)
    requires forall i :: 0 <= i < |a| ==> Plain(a[i])
    ensures Accepts(a + b) == Accepts(b)
  {
    if a == [] {
      assert a + b == b;
    } else {
      assert (a + b)[0] == a[0] && (a + b)[1..] == a[1..] + b;
      PlainIsSkipped(a[1..], b);
    }
  }
}
