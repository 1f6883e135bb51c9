/** The strict modified UTF-8 codec of JNI strings (section 4.4.7 of the JVM Specification). */
module Mutf8 {
  import opened Common

  /** A Python character: any code point, surrogates included. */
  type CodePoint = c: int | 0 <= c < 0x110000

  datatype Reason = InvalidTwoByte | Overlong | InvalidThreeByte | InvalidLowSurrogate | InvalidLead

  /** `Err` carries the range and the reason of the source's UnicodeDecodeError. */
  datatype Decoded = Ok(text: seq<CodePoint>) | Err(start: nat, end: nat, reason: Reason)

  predicate IsHigh(c: int) { 0xD800 <= c <= 0xDBFF }

  predicate IsLow(c: int) { 0xDC00 <= c <= 0xDFFF }

  function JoinPair(hi: int, lo: int): int {
    0x10000 + (hi - 0xD800) * 0x400 + (lo - 0xDC00)
  }

  predicate IsContinuation(b: Byte) { 0x80 <= b < 0xC0 }

  // ------------------------------------------------------------------ encode

  function Two(code: int): (s: seq<Byte>)
    requires 0 <= code < 0x800
  {
    [0xC0 + code / 0x40, 0x80 + code % 0x40]
  }

  function Three(code: int): (s: seq<Byte>)
    requires 0 <= code < 0x10000
  {
    [0xE0 + code / 0x1000, 0x80 + code / 0x40 % 0x40, 0x80 + code % 0x40]
  }

  /** The surrogates standing for a code point `rest` above 0xFFFF. */
  function Upper(rest: int): (hi: int)
    requires 0 <= rest < 0x100000
    ensures IsHigh(hi)
  {
    0xD800 + rest / 0x400
  }

  function Lower(rest: int): (lo: int)
    ensures IsLow(lo)
  {
    0xDC00 + rest % 0x400
  }

  function EncodeChar(code: CodePoint): (s: seq<Byte>)
    ensures |s| > 0
    ensures 0 !in s
  {
    if code == 0 then [0xC0, 0x80]
    else if code < 0x80 then [code]
    else if code < 0x800 then Two(code)
    else if code < 0x10000 then Three(code)
    else Three(Upper(code - 0x10000)) + Three(Lower(code - 0x10000))
  }

  /** The payload bits of a byte, those below `unit`. */
  function Low(b: Byte, unit: int): int
    requires unit > 0
  {
    b % unit
  }

  /** One byte, or the lead and continuation bytes with the payload bits; above 0xFFFF the two UTF-16 surrogates. */
  lemma CharForms(c: CodePoint)
    ensures var s := EncodeChar(c);
      if c == 0 then s == [0xC0, 0x80]
      else if c < 0x80 then s == [c]
      else if c < 0x800 then
        |s| == 2 && s[0] / 0x20 == 6 && s[1] / 0x40 == 2 && c == 0x40 * Low(s[0], 0x20) + Low(s[1], 0x40)
      else if c < 0x10000 then
        && |s| == 3 && s[0] / 0x10 == 0xE && s[1] / 0x40 == 2 && s[2] / 0x40 == 2
        && c == 0x1000 * Low(s[0], 0x10) + 0x40 * Low(s[1], 0x40) + Low(s[2], 0x40)
      else s == EncodeChar(0xD800 + (c - 0x10000) / 0x400) + EncodeChar(0xDC00 + (c - 0x10000) % 0x400)
  {
    if 0x80 <= c < 0x800 {
      TwoBytes(c);
    } else if 0x800 <= c < 0x10000 {
      ThreeBytes(c);
    }
  }

  function Encoding(text: seq<CodePoint>): (s: seq<Byte>) {
    if text == [] then [] else EncodeChar(text[0]) + Encoding(text[1..])
  }

  lemma {:induction false} EncodingAppend(text: seq<CodePoint>, code: CodePoint)
    ensures Encoding(text + [code]) == Encoding(text) + EncodeChar(code)
  {
    if text == [] {
      assert [code][1..] == [];
      assert Encoding([code]) == EncodeChar(code) + [];
    } else {
      assert (text + [code])[1..] == text[1..] + [code];
      EncodingAppend(text[1..], code);
    }
  }

  method Encode(text: seq<CodePoint>) returns (out: seq<Byte>)
    ensures out == Encoding(text)
  {
    out := [];
    assert Encoding(text[..0]) == out;
    hide Encoding, Two, Three, Upper, Lower;
    for k := 0 to |text|
      invariant out == Encoding(text[..k])
    {
      var code := text[k];
      ghost var before := out;
      if code == 0 {
        out := out + [0xC0, 0x80];
      } else if code < 0x80 {
        out := out + [code];
      } else if code < 0x800 {
        out := out + Two(code);
      } else if code < 0x10000 {
        out := out + Three(code);
      } else {
        var rest := code - 0x10000;
        out := out + Three(Upper(rest)) + Three(Lower(rest));
      }
      assert out == before + EncodeChar(code);
      assert Encoding(text[..k + 1]) == before + EncodeChar(code) by {
        assert text[..k + 1] == text[..k] + [code];
        EncodingAppend(text[..k], code);
      }
    }
    assert text[..|text|] == text;
  }

  // ------------------------------------------------------------------ decode

  function Prepend(c: CodePoint, r: Decoded): Decoded {
    if r.Ok? then Ok([c] + r.text) else r
  }

  predicate ThreeAt(data: seq<Byte>, i: nat) {
    i + 2 < |data| && data[i] / 0x10 == 0xE && IsContinuation(data[i + 1]) && IsContinuation(data[i + 2])
  }

  function Value2(a: int, b: int): int { a % 0x20 * 0x40 + b % 0x40 }

  function Value3(a: int, b: int, c: int): (v: int)
    ensures 0 <= v < 0x10000
  {
    a % 0x10 * 0x1000 + b % 0x40 * 0x40 + c % 0x40
  }

  function ThreeValue(data: seq<Byte>, i: nat): (v: int)
    requires i + 2 < |data|
    ensures 0 <= v < 0x10000
  {
    Value3(data[i], data[i + 1], data[i + 2])
  }

  /** What one turn of the decoding loop does at `i`: emit a character and advance, or fail. */
  datatype Turn = Emit(code: CodePoint, next: nat) | Fail(start: nat, end: nat, reason: Reason)

  function TurnAt(data: seq<Byte>, i: nat): (t: Turn)
    requires i < |data|
    ensures t.Emit? ==> i < t.next <= |data|
  {
    var b0 := data[i];
    if b0 == 0xC0 && i + 1 < |data| && data[i + 1] == 0x80 then Emit(0, i + 2)
    else if b0 < 0x80 then Emit(b0, i + 1)
    else if b0 / 0x20 == 6 then
      if i + 1 >= |data| || !IsContinuation(data[i + 1]) then Fail(i, Min(i + 2, |data|), InvalidTwoByte)
      else
        var code := Value2(b0, data[i + 1]);
        if code < 0x80 then Fail(i, i + 2, Overlong) else Emit(code, i + 2)
    else if b0 / 0x10 == 0xE then
      if !ThreeAt(data, i) then Fail(i, Min(i + 3, |data|), InvalidThreeByte)
      else
        var cp := ThreeValue(data, i);
        if cp < 0x800 then Fail(i, i + 3, Overlong)
        else if IsHigh(cp) && i + 5 < |data| && data[i + 3] / 0x10 == 0xE then
          if !ThreeAt(data, i + 3) then Fail(i + 3, i + 6, InvalidLowSurrogate)
          else
            var lo := ThreeValue(data, i + 3);
            if IsLow(lo) then Emit(JoinPair(cp, lo), i + 6) else Emit(cp, i + 3)
        else Emit(cp, i + 3)
    else Fail(i, i + 1, InvalidLead)
  }

  /** Which bytes at `i` are malformed, in what range and why; a raw zero is not among them. */
  lemma TurnErrors(data: seq<Byte>, i: nat)
    requires i < |data|
    ensures var t, n, b0 := TurnAt(data, i), |data|, data[i];
      var cut2 := i + 1 >= n || !(0x80 <= data[i + 1] <= 0xBF);
      var cut3 := i + 2 >= n || !(0x80 <= data[i + 1] <= 0xBF && 0x80 <= data[i + 2] <= 0xBF);
      && (t == Fail(i, i + 1, InvalidLead) <==> 0x80 <= b0 <= 0xBF || 0xF0 <= b0)
      && (t == Fail(i, Min(i + 2, n), InvalidTwoByte) <==> 0xC0 <= b0 <= 0xDF && cut2)
      && (t == Fail(i, i + 2, Overlong) <==> 0xC0 <= b0 <= 0xC1 && !cut2 && !(b0 == 0xC0 && data[i + 1] == 0x80))
      && (t == Fail(i, Min(i + 3, n), InvalidThreeByte) <==> 0xE0 <= b0 <= 0xEF && cut3)
      && (t == Fail(i, i + 3, Overlong) <==> b0 == 0xE0 && !cut3 && data[i + 1] < 0xA0)
      && (t == Fail(i + 3, i + 6, InvalidLowSurrogate) <==>
            && b0 == 0xED && !cut3 && 0xA0 <= data[i + 1] <= 0xAF && i + 5 < n && 0xE0 <= data[i + 3] <= 0xEF
            && !(0x80 <= data[i + 4] <= 0xBF && 0x80 <= data[i + 5] <= 0xBF))
      && (t.Fail? ==> t.reason in {InvalidLead, InvalidTwoByte, InvalidThreeByte, InvalidLowSurrogate, Overlong})
      && (b0 == 0 ==> t == Emit(0, i + 1))
  {
  }

  function Decoding(data: seq<Byte>, i: nat): (r: Decoded)
    requires i <= |data|
    decreases |data| - i
  {
    if i == |data| then Ok([])
    else
      match TurnAt(data, i)
      case Emit(code, next) => Prepend(code, Decoding(data, next))
      case Fail(start, end, reason) => Err(start, end, reason)
  }

  /** A turn that stays within a prefix is the same there. */
  lemma TurnOfPrefix(data: seq<Byte>, i: nat, p: nat)
    requires i < p < |data| && TurnAt(data, i).Emit? && TurnAt(data, i).next <= p
    requires TurnAt(data, i).next == i + 3 && i + 3 < p < i + 6 ==> data[i + 3] / 0x10 != 0xE
    ensures TurnAt(data[..p], i) == TurnAt(data, i)
  {
  }

  function PrependAll(out: seq<CodePoint>, r: Decoded): Decoded {
    if r.Ok? then Ok(out + r.text) else r
  }

  method Decode(data: seq<Byte>) returns (r: Decoded)
    ensures r == Decoding(data, 0)
  {
    var out: seq<CodePoint> := [];
    var i, n := 0, |data|;
    while i < n
      invariant i <= n
      invariant Decoding(data, 0) == PrependAll(out, Decoding(data, i))
    {
      var b0 := data[i];
      ghost var before, at := out, i;
      if b0 == 0xC0 && i + 1 < n && data[i + 1] == 0x80 {
        out, i := out + [0], i + 2;
      } else if b0 < 0x80 {
        out, i := out + [b0], i + 1;
      } else if b0 / 0x20 == 6 {
        if i + 1 >= n || !IsContinuation(data[i + 1]) {
          return Err(i, Min(i + 2, n), InvalidTwoByte);
        }
        var code := Value2(b0, data[i + 1]);
        if code < 0x80 {
          return Err(i, i + 2, Overlong);
        }
        out, i := out + [code], i + 2;
      } else if b0 / 0x10 == 0xE {
        if i + 2 >= n || !IsContinuation(data[i + 1]) || !IsContinuation(data[i + 2]) {
          return Err(i, Min(i + 3, n), InvalidThreeByte);
        }
        var cp := ThreeValue(data, i);
        if cp < 0x800 {
          return Err(i, i + 3, Overlong);
        }
        var lo := -1;
        if IsHigh(cp) && i + 5 < n && data[i + 3] / 0x10 == 0xE {
          if !IsContinuation(data[i + 4]) || !IsContinuation(data[i + 5]) {
            return Err(i + 3, i + 6, InvalidLowSurrogate);
          }
          lo := ThreeValue(data, i + 3);
        }
        if IsLow(lo) {
          out, i := out + [JoinPair(cp, lo)], i + 6;
        } else {
          out, i := out + [cp], i + 3;
        }
      } else {
        return Err(i, i + 1, InvalidLead);
      }
      assert out == before + [out[|out| - 1]];
      assert TurnAt(data, at) == Emit(out[|out| - 1], i);
      assert forall t: seq<CodePoint> :: before + ([out[|out| - 1]] + t) == out + t;
    }
    assert out + [] == out;
    return Ok(out);
  }

  /** The decoder reports the first malformed place: all the bytes before it decode. */
  lemma {:induction false} ErrorIsFirst(data: seq<Byte>, i: nat) returns (p: nat)
    requires i <= |data| && Decoding(data, i).Err?
    ensures i <= p < |data| && Decoding(data[..p], i).Ok?
    ensures var t := TurnAt(data, p); t.Fail? && Decoding(data, i) == Err(t.start, t.end, t.reason)
    ensures p > i ==> TurnAt(data, i).Emit? && TurnAt(data, i).next <= p
    decreases |data| - i
  {
    match TurnAt(data, i) {
      case Fail(_, _, _) => p := i;
      case Emit(_, next) =>
        p := ErrorIsFirst(data, next);
        TurnOfPrefix(data, i, p);
    }
  }

  // ------------------------------------------------------------------ round trips

  /** Joins each adjacent high-low surrogate pair, left to right. */
  function Joined(text: seq<CodePoint>): (r: seq<CodePoint>) {
    if text == [] then []
    else if |text| > 1 && IsHigh(text[0]) && IsLow(text[1]) then [JoinPair(text[0], text[1])] + Joined(text[2..])
    else [text[0]] + Joined(text[1..])
  }

  ghost predicate PairFree(text: seq<CodePoint>) {
    forall i :: 0 <= i < |text| - 1 ==> !(IsHigh(text[i]) && IsLow(text[i + 1]))
  }

  lemma ThreeBytes(code: int)
    requires 0 <= code < 0x10000
    ensures var s := Three(code);
      s[0] / 0x10 == 0xE && IsContinuation(s[1]) && IsContinuation(s[2]) && Value3(s[0], s[1], s[2]) == code
  {
    var x, y, z := code / 0x1000, code / 0x40 % 0x40, code % 0x40;
    assert code == code / 0x40 * 0x40 + z && code / 0x40 == x * 0x40 + y;
    assert (0xE0 + x) % 0x10 == x && (0x80 + y) % 0x40 == y && (0x80 + z) % 0x40 == z;
  }

  lemma ThreeInverse(data: seq<Byte>, i: nat, code: int)
    requires 0 <= code < 0x10000
    requires i <= |data| && Three(code) <= data[i..]
    ensures ThreeAt(data, i) && ThreeValue(data, i) == code
  {
    ThreeBytes(code);
    var s := data[i..];
    assert s[0] == Three(code)[0] && s[1] == Three(code)[1] && s[2] == Three(code)[2];
  }

  lemma SuffixStep(data: seq<Byte>, i: nat, head: seq<Byte>, rest: seq<Byte>)
    requires i <= |data| && data[i..] == head + rest
    ensures i + |head| <= |data| && head <= data[i..] && data[i + |head|..] == rest
  {
    assert data[i + |head|..] == data[i..][|head|..];
  }

  /** A text that does not start with a low surrogate never presents a low triple to the decoder. */
  lemma HeadTriple(data: seq<Byte>, i: nat, text: seq<CodePoint>)
    requires i <= |data| && data[i..] == Encoding(text)
    requires i + 2 < |data| && data[i] / 0x10 == 0xE
    ensures ThreeAt(data, i) && text != []
    ensures IsLow(ThreeValue(data, i)) <==> IsLow(text[0])
    ensures IsLow(text[0]) ==> ThreeValue(data, i) == text[0]
  {
    var c := text[0];
    SuffixStep(data, i, EncodeChar(c), Encoding(text[1..]));
    assert data[i] == EncodeChar(c)[0];
    if c >= 0x10000 {
      var hi := Upper(c - 0x10000);
      assert Three(hi) <= data[i..];
      ThreeInverse(data, i, hi);
    } else {
      assert c >= 0x800 by { ShortLead(c); }
      ThreeInverse(data, i, c);
    }
  }

  lemma ShortLead(c: CodePoint)
    ensures c < 0x800 ==> EncodeChar(c)[0] / 0x10 != 0xE
  {
  }

  lemma TwoBytes(code: int)
    requires 0x80 <= code < 0x800
    ensures var s := Two(code);
      0xC2 <= s[0] && s[0] / 0x20 == 6 && IsContinuation(s[1]) && Value2(s[0], s[1]) == code
  {
    assert (0xC0 + code / 0x40) % 0x20 == code / 0x40;
    assert (0x80 + code % 0x40) % 0x40 == code % 0x40;
  }

  lemma TurnOfShort(data: seq<Byte>, i: nat, c: CodePoint)
    requires i <= |data| && c < 0x800 && EncodeChar(c) <= data[i..]
    ensures TurnAt(data, i) == Emit(c, i + |EncodeChar(c)|)
  {
    var s := data[i..];
    assert s[0] == EncodeChar(c)[0];
    if c == 0 || c >= 0x80 {
      assert s[1] == EncodeChar(c)[1];
    }
    if c >= 0x80 {
      TwoBytes(c);
    }
  }

  /** A triple that does not open a surrogate pair is emitted alone. */
  lemma TurnOfTriple(data: seq<Byte>, i: nat)
    requires ThreeAt(data, i) && ThreeValue(data, i) >= 0x800
    requires IsHigh(ThreeValue(data, i)) && i + 5 < |data| && data[i + 3] / 0x10 == 0xE ==>
               ThreeAt(data, i + 3) && !IsLow(ThreeValue(data, i + 3))
    ensures TurnAt(data, i) == Emit(ThreeValue(data, i), i + 3)
  {
  }

  lemma TurnOfSingle(data: seq<Byte>, i: nat, text: seq<CodePoint>)
    requires i <= |data| && text != [] && data[i..] == Encoding(text)
    requires 0x800 <= text[0] < 0x10000
    requires !(|text| > 1 && IsHigh(text[0]) && IsLow(text[1]))
    ensures TurnAt(data, i) == Emit(text[0], i + 3)
  {
    var c := text[0];
    SuffixStep(data, i, Three(c), Encoding(text[1..]));
    ThreeInverse(data, i, c);
    assert i + 3 <= |data|;
    if IsHigh(c) && i + 5 < |data| && data[i + 3] / 0x10 == 0xE {
      HeadTriple(data, i + 3, text[1..]);
    }
    TurnOfTriple(data, i);
  }

  lemma TurnOfPair(data: seq<Byte>, i: nat, hi: int, lo: int)
    requires IsHigh(hi) && IsLow(lo) && i <= |data| && Three(hi) + Three(lo) <= data[i..]
    ensures TurnAt(data, i) == Emit(JoinPair(hi, lo), i + 6)
  {
    var s := data[i..];
    assert Three(hi) <= s;
    assert Three(lo) <= data[i + 3..] by { assert data[i + 3..] == s[3..]; }
    ThreeInverse(data, i, hi);
    ThreeInverse(data, i + 3, lo);
  }

  /** How many characters the decoder joins into its next one. */
  function Taken(text: seq<CodePoint>): nat
    requires text != []
  {
    if |text| > 1 && IsHigh(text[0]) && IsLow(text[1]) then 2 else 1
  }

  lemma TurnOfText(data: seq<Byte>, i: nat, text: seq<CodePoint>) returns (next: nat)
    requires i <= |data| && text != [] && data[i..] == Encoding(text)
    ensures TurnAt(data, i) == Emit(Joined(text)[0], next)
    ensures next <= |data| && data[next..] == Encoding(text[Taken(text)..])
  {
    var c, tail := text[0], text[1..];
    SuffixStep(data, i, EncodeChar(c), Encoding(tail));
    next := i + |EncodeChar(c)|;
    if Taken(text) == 2 {
      SuffixStep(data, i + 3, Three(text[1]), Encoding(tail[1..]));
      assert tail[1..] == text[2..];
      assert data[i..] == (Three(c) + Three(text[1])) + Encoding(text[2..]);
      TurnOfPair(data, i, c, text[1]);
      next := i + 6;
    } else if c >= 0x10000 {
      TurnOfWide(data, i, c);
    } else if c < 0x800 {
      TurnOfShort(data, i, c);
    } else {
      TurnOfSingle(data, i, text);
    }
  }

  lemma TurnOfWide(data: seq<Byte>, i: nat, c: CodePoint)
    requires i <= |data| && c >= 0x10000 && EncodeChar(c) <= data[i..]
    ensures TurnAt(data, i) == Emit(c, i + 6)
  {
    var hi, lo := Upper(c - 0x10000), Lower(c - 0x10000);
    assert JoinPair(hi, lo) == c;
    TurnOfPair(data, i, hi, lo);
  }

  /** decode(encode(t)) is t with its surrogate pairs joined. */
  lemma {:induction false} DecodeOfEncode(data: seq<Byte>, i: nat, text: seq<CodePoint>)
    requires i <= |data| && data[i..] == Encoding(text)
    ensures Decoding(data, i) == Ok(Joined(text))
    decreases |text|
  {
    if text != [] {
      var next := TurnOfText(data, i, text);
      DecodeOfEncode(data, next, text[Taken(text)..]);
    }
  }

  lemma {:induction false} JoinedIsIdentity(text: seq<CodePoint>)
    ensures Joined(text) == text <==> PairFree(text)
    ensures |Joined(text)| <= |text|
  {
    if text != [] {
      var tail := text[1..];
      JoinedIsIdentity(tail);
      if |text| > 1 && IsHigh(text[0]) && IsLow(text[1]) {
        JoinedIsIdentity(text[2..]);
        assert |Joined(text)| < |text|;
      } else {
        assert Joined(text) == text <==> Joined(tail) == tail by {
          assert Joined(text)[1..] == Joined(tail);
          assert text == [text[0]] + tail;
        }
        if PairFree(tail) {
          forall k | 0 <= k < |text| - 1 ensures !(IsHigh(text[k]) && IsLow(text[k + 1])) {
            if k > 0 { assert tail[k - 1] == text[k] && tail[k] == text[k + 1]; }
          }
        }
        if PairFree(text) {
          assert forall k :: 0 <= k < |tail| ==> tail[k] == text[k + 1];
        }
      }
    }
  }

  /** The text survives the round trip exactly when it holds no high-low surrogate pair. */
  lemma TextRoundTrip(text: seq<CodePoint>)
    ensures Decoding(Encoding(text), 0) == Ok(Joined(text))
    ensures Decoding(Encoding(text), 0) == Ok(text) <==> PairFree(text)
  {
    var data := Encoding(text);
    assert data[0..] == data;
    DecodeOfEncode(data, 0, text);
    JoinedIsIdentity(text);
  }

  lemma {:induction false} NeverEmitsZero(text: seq<CodePoint>)
    ensures 0 !in Encoding(text)
  {
    if text != [] {
      NeverEmitsZero(text[1..]);
    }
  }

  /** What encoding back changes: a raw 0x00 becomes the two-byte form. */
  function ZerosWidened(data: seq<Byte>): (r: seq<Byte>) {
    if data == [] then []
    else (if data[0] == 0 then [0xC0, 0x80] else [data[0]]) + ZerosWidened(data[1..])
  }

  lemma {:induction false} WidenedAppend(a: seq<Byte>, b: seq<Byte>)
    ensures ZerosWidened(a + b) == ZerosWidened(a) + ZerosWidened(b)
  {
    if a == [] {
      assert a + b == b;
    } else {
      assert (a + b)[1..] == a[1..] + b;
      WidenedAppend(a[1..], b);
    }
  }

  lemma {:induction false} WidenedIsIdentity(data: seq<Byte>)
    ensures ZerosWidened(data) == data <==> 0 !in data
    ensures |ZerosWidened(data)| >= |data|
  {
    if data != [] {
      WidenedIsIdentity(data[1..]);
      assert data == [data[0]] + data[1..];
      if data[0] != 0 {
        assert ZerosWidened(data)[1..] == ZerosWidened(data[1..]);
      }
    }
  }

  lemma Digits(x: int, y: int, z: int)
    requires 0 <= x < 0x10 && 0 <= y < 0x40 && 0 <= z < 0x40
    ensures var v := x * 0x1000 + y * 0x40 + z; v / 0x1000 == x && v / 0x40 == x * 0x40 + y && v % 0x40 == z
    ensures (x * 0x40 + y) % 0x40 == y
  {
  }

  lemma PayloadBits(a: Byte, b: Byte)
    ensures a / 0x10 == 0xE ==> a == 0xE0 + a % 0x10
    ensures a / 0x20 == 6 ==> a == 0xC0 + a % 0x20
    ensures IsContinuation(b) ==> b == 0x80 + b % 0x40
  {
  }

  lemma ThreeOfBytes(a: Byte, b: Byte, c: Byte)
    requires a / 0x10 == 0xE && IsContinuation(b) && IsContinuation(c)
    ensures Three(Value3(a, b, c)) == [a, b, c]
  {
    PayloadBits(a, b);
    PayloadBits(a, c);
    var x, y, z := a % 0x10, b % 0x40, c % 0x40;
    Digits(x, y, z);
    assert Three(x * 0x1000 + y * 0x40 + z) == [0xE0 + x, 0x80 + y, 0x80 + z];
    hide Three, IsContinuation;
  }

  lemma TwoOfBytes(a: Byte, b: Byte)
    requires a / 0x20 == 6 && IsContinuation(b)
    ensures 0 <= Value2(a, b) < 0x800 && Two(Value2(a, b)) == [a, b]
  {
    PayloadBits(a, b);
  }

  lemma SplitOfJoin(hi: int, lo: int)
    requires IsHigh(hi) && IsLow(lo)
    ensures 0x10000 <= JoinPair(hi, lo) < 0x110000
    ensures Upper(JoinPair(hi, lo) - 0x10000) == hi && Lower(JoinPair(hi, lo) - 0x10000) == lo
  {
  }

  /** The bytes one turn consumes are the ones its character encodes to, a raw zero aside. */
  lemma TurnReencodes(data: seq<Byte>, i: nat)
    requires i < |data| && TurnAt(data, i).Emit?
    ensures var t := TurnAt(data, i); EncodeChar(t.code) == ZerosWidened(data[i..t.next])
  {
    var t := TurnAt(data, i);
    var s := data[i..t.next];
    if data[i] == 0 {
      assert s == [0] && s[1..] == [];
      assert ZerosWidened(s) == [0xC0, 0x80] + [];
    } else {
      assert EncodeChar(t.code) == s by { NonZeroTurn(data, i); }
      WidenedIsIdentity(s);
    }
  }

  lemma NonZeroTurn(data: seq<Byte>, i: nat)
    requires i < |data| && TurnAt(data, i).Emit? && data[i] != 0
    ensures var t := TurnAt(data, i); EncodeChar(t.code) == data[i..t.next]
  {
    var t := TurnAt(data, i);
    if t.next == i + 1 {
      assert data[i..t.next] == [data[i]];
    } else if t.next == i + 2 {
      assert data[i..t.next] == [data[i], data[i + 1]];
      if t.code != 0 {
        TwoOfBytes(data[i], data[i + 1]);
      }
    } else if t.next == i + 3 {
      TripleTurn(data, i);
    } else {
      PairTurn(data, i);
    }
  }

  lemma TripleTurn(data: seq<Byte>, i: nat)
    requires i < |data| && TurnAt(data, i).Emit? && TurnAt(data, i).next == i + 3
    ensures EncodeChar(TurnAt(data, i).code) == data[i..i + 3]
  {
    assert data[i..i + 3] == [data[i], data[i + 1], data[i + 2]];
    ThreeOfBytes(data[i], data[i + 1], data[i + 2]);
    assert TurnAt(data, i).code == ThreeValue(data, i);
  }

  lemma PairTurnParts(data: seq<Byte>, i: nat)
    requires i < |data| && TurnAt(data, i).Emit? && TurnAt(data, i).next == i + 6
    ensures ThreeAt(data, i) && ThreeAt(data, i + 3)
    ensures IsHigh(ThreeValue(data, i)) && IsLow(ThreeValue(data, i + 3))
    ensures TurnAt(data, i).code == JoinPair(ThreeValue(data, i), ThreeValue(data, i + 3))
  {
  }

  lemma EncodeOfPair(hi: int, lo: int)
    requires IsHigh(hi) && IsLow(lo)
    ensures 0x10000 <= JoinPair(hi, lo) < 0x110000
    ensures EncodeChar(JoinPair(hi, lo)) == Three(hi) + Three(lo)
  {
    SplitOfJoin(hi, lo);
  }

  lemma PairTurn(data: seq<Byte>, i: nat)
    requires i < |data| && TurnAt(data, i).Emit? && TurnAt(data, i).next == i + 6
    ensures EncodeChar(TurnAt(data, i).code) == data[i..i + 6]
  {
    PairTurnParts(data, i);
    var hi, lo := ThreeValue(data, i), ThreeValue(data, i + 3);
    EncodeOfPair(hi, lo);
    var front, back := [data[i], data[i + 1], data[i + 2]], [data[i + 3], data[i + 4], data[i + 5]];
    assert Three(hi) == front by { ThreeOfBytes(data[i], data[i + 1], data[i + 2]); }
    assert Three(lo) == back by { ThreeOfBytes(data[i + 3], data[i + 4], data[i + 5]); }
    assert data[i..i + 6] == front + back;
  }

  lemma EncodingStep(code: CodePoint, rest: seq<CodePoint>)
    ensures Encoding([code] + rest) == EncodeChar(code) + Encoding(rest)
  {
    hide EncodeChar;
    assert ([code] + rest)[1..] == rest;
  }

  lemma {:induction false} EncodeOfDecode(data: seq<Byte>, i: nat)
    requires i <= |data| && Decoding(data, i).Ok?
    ensures Encoding(Decoding(data, i).text) == ZerosWidened(data[i..])
    decreases |data| - i
  {
    if i == |data| {
      assert data[i..] == [];
    } else {
      var t := TurnAt(data, i);
      TurnReencodes(data, i);
      hide TurnAt, EncodeChar, ZerosWidened;
      EncodeOfDecode(data, t.next);
      var rest := Decoding(data, t.next).text;
      assert Decoding(data, i).text == [t.code] + rest;
      hide Decoding;
      EncodingStep(t.code, rest);
      WidenedAppend(data[i..t.next], data[t.next..]);
      assert data[i..] == data[i..t.next] + data[t.next..];
    }
  }

  /** Decodable bytes are restored exactly when they hold no raw 0x00. */
  lemma BytesRoundTrip(data: seq<Byte>)
    requires Decoding(data, 0).Ok?
    ensures Encoding(Decoding(data, 0).text) == ZerosWidened(data)
    ensures Encoding(Decoding(data, 0).text) == data <==> 0 !in data
  {
    assert data[0..] == data;
    EncodeOfDecode(data, 0);
    WidenedIsIdentity(data);
  }

  lemma LowComesFromTriple(data: seq<Byte>, i: nat)
    requires i < |data| && TurnAt(data, i).Emit? && IsLow(TurnAt(data, i).code)
    ensures ThreeAt(data, i) && ThreeValue(data, i) == TurnAt(data, i).code
  {
  }

  /** The decoder leaves no high-low pair unjoined, so its output always survives re-encoding. */
  lemma {:induction false} DecodedIsPairFree(data: seq<Byte>, i: nat)
    requires i <= |data| && Decoding(data, i).Ok?
    ensures PairFree(Decoding(data, i).text)
    decreases |data| - i
  {
    if i < |data| {
      var t := TurnAt(data, i);
      DecodedIsPairFree(data, t.next);
      var rest := Decoding(data, t.next).text;
      if rest != [] && IsHigh(t.code) && IsLow(rest[0]) {
        LowComesFromTriple(data, t.next);
        assert false;
      }
      var all := [t.code] + rest;
      assert forall k :: 0 < k < |all| ==> all[k] == rest[k - 1];
    }
  }
}
