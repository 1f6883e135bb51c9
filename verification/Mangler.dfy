/** JNI native-method symbol names (JNI Specification, chapter 2, "Resolving Native Method Names"). */
module Mangler {
  /** A UTF-16 code unit; names are the unit sequences Python's utf-16-be codec yields. */
  type Unit = u: int | 0 <= u < 0x10000

  type Name = seq<Unit>

  const SLASH: Unit := 0x2F
  const DOT: Unit := 0x2E
  const UNDERSCORE: Unit := 0x5F
  const SEMICOLON: Unit := 0x3B
  const BRACKET: Unit := 0x5B
  const ZERO: Unit := 0x30
  const OPEN: Unit := 0x28
  const CLOSE: Unit := 0x29
  const JAVA: Name := [0x4A, 0x61, 0x76, 0x61, 0x5F]  // Java_

  predicate IsAsciiAlnum(u: Unit) {
    0x30 <= u <= 0x39 || 0x41 <= u <= 0x5A || 0x61 <= u <= 0x7A
  }

  predicate IsHex(u: Unit) {
    0x30 <= u <= 0x39 || 0x61 <= u <= 0x66
  }

  function HexDigit(d: int): (u: Unit)
    requires 0 <= d < 16
    ensures IsHex(u) && HexValue(u) == d
  {
    if d < 10 then 0x30 + d else 0x57 + d
  }

  function HexValue(u: Unit): (d: int)
    requires IsHex(u)
    ensures 0 <= d < 16
  {
    if u <= 0x39 then u - 0x30 else u - 0x57
  }

  /** The source's `:04x` of one code unit: always four lower-case digits. */
  function Hex4(u: Unit): Name {
    [HexDigit(u / 0x1000), HexDigit(u / 0x100 % 16), HexDigit(u / 16 % 16), HexDigit(u % 16)]
  }

  function MangleUnit(u: Unit): (s: Name)
    ensures |s| > 0
  {
    if IsAsciiAlnum(u) then [u]
    else if u == SLASH || u == DOT then [UNDERSCORE]
    else if u == UNDERSCORE then [UNDERSCORE, ZERO + 1]
    else if u == SEMICOLON then [UNDERSCORE, ZERO + 2]
    else if u == BRACKET then [UNDERSCORE, ZERO + 3]
    else [UNDERSCORE, ZERO] + Hex4(u)
  }

  /** The character `c`, as a code unit. */
  predicate Is(u: Unit, c: char) { u == c as int }

  predicate Between(u: Unit, a: char, b: char) { a as int <= u <= b as int }

  /** Letters and digits stand for themselves; every other character has its JNI escape. */
  lemma UnitForms(u: Unit)
    ensures Between(u, 'a', 'z') || Between(u, 'A', 'Z') || Between(u, '0', '9') ==> MangleUnit(u) == [u]
    ensures Is(u, '/') || Is(u, '.') ==> |MangleUnit(u)| == 1 && Is(MangleUnit(u)[0], '_')
    ensures Is(u, '_') || Is(u, ';') || Is(u, '[') ==>
              var s := MangleUnit(u);
              |s| == 2 && Is(s[0], '_') && Is(s[1], if Is(u, '_') then '1' else if Is(u, ';') then '2' else '3')
    ensures !(Between(u, 'a', 'z') || Between(u, 'A', 'Z') || Between(u, '0', '9')
              || Is(u, '/') || Is(u, '.') || Is(u, '_') || Is(u, ';') || Is(u, '[')) ==>
              var s := MangleUnit(u);
              && |s| == 6 && Is(s[0], '_') && Is(s[1], '0')
              && IsHex(s[2]) && IsHex(s[3]) && IsHex(s[4]) && IsHex(s[5])
              && u == HexValue(s[2]) * 0x1000 + HexValue(s[3]) * 0x100 + HexValue(s[4]) * 0x10 + HexValue(s[5])
  {
    assert u / 0x100 == u / 0x1000 * 16 + u / 0x100 % 16;
    assert u / 16 == u / 0x100 * 16 + u / 16 % 16;
  }

  lemma Characters()
    ensures Is(OPEN, '(') && Is(CLOSE, ')') && Is(SLASH, '/') && Is(UNDERSCORE, '_')
  {
  }

  /** A hexadecimal digit's value, by its character. */
  lemma HexDigits(u: Unit)
    ensures IsHex(u) <==> Between(u, '0', '9') || Between(u, 'a', 'f')
    ensures Between(u, '0', '9') ==> HexValue(u) == u - '0' as int
    ensures Between(u, 'a', 'f') ==> HexValue(u) == 10 + u - 'a' as int
  {
  }

  function Mangled(text: Name): Name {
    if text == [] then [] else MangleUnit(text[0]) + Mangled(text[1..])
  }

  lemma {:induction false} MangledConcat(a: Name, b: Name)
    ensures Mangled(a + b) == Mangled(a) + Mangled(b)
  {
    if a == [] {
      assert a + b == b;
    } else {
      assert (a + b)[1..] == a[1..] + b;
      MangledConcat(a[1..], b);
    }
  }

  lemma MangledOne(u: Unit)
    ensures Mangled([u]) == MangleUnit(u)
  {
    assert [u][1..] == [];
    assert Mangled([u]) == MangleUnit(u) + [];
  }

  method Component(text: Name) returns (out: Name)
    ensures out == Mangled(text)
  {
    out := [];
    for k := 0 to |text|
      invariant out == Mangled(text[..k])
    {
      var u := text[k];
      assert text[..k + 1] == text[..k] + [u];
      MangledConcat(text[..k], [u]);
      MangledOne(u);
      if IsAsciiAlnum(u) {
        out := out + [u];
      } else if u == SLASH || u == DOT {
        out := out + [UNDERSCORE];
      } else if u == UNDERSCORE {
        out := out + [UNDERSCORE, ZERO + 1];
      } else if u == SEMICOLON {
        out := out + [UNDERSCORE, ZERO + 2];
      } else if u == BRACKET {
        out := out + [UNDERSCORE, ZERO + 3];
      } else {
        out := out + ([UNDERSCORE, ZERO] + Hex4(u));
      }
    }
    assert text[..|text|] == text;
  }

  // ------------------------------------------------------------------ reading a mangled name back

  predicate HexRun(s: Name, n: nat)
    ensures HexRun(s, n) ==> n <= |s| && forall k :: 0 <= k < n ==> IsHex(s[k])
  {
    n == 0 || (s != [] && IsHex(s[0]) && HexRun(s[1..], n - 1))
  }

  /** Would these characters, after an underscore, be read as the rest of an escape? */
  predicate Escapes(s: Name) {
    s != [] && (ZERO < s[0] <= ZERO + 3 || (s[0] == ZERO && HexRun(s[1..], 4)))
  }

  function FromHex(s: Name): Unit
    requires HexRun(s, 4)
  {
    HexValue(s[0]) * 0x1000 + HexValue(s[1]) * 0x100 + HexValue(s[2]) * 16 + HexValue(s[3])
  }

  function Escaped(s: Name): (r: (Unit, Name))
    requires Escapes(s)
    ensures |r.1| < |s|
  {
    if s[0] == ZERO + 1 then (UNDERSCORE, s[1..])
    else if s[0] == ZERO + 2 then (SEMICOLON, s[1..])
    else if s[0] == ZERO + 3 then (BRACKET, s[1..])
    else (FromHex(s[1..]), s[5..])
  }

  /** The reader of the JNI rules: an underscore not opening an escape separates name parts. */
  function Unmangled(s: Name): Name {
    if s == [] then []
    else if s[0] != UNDERSCORE then [s[0]] + Unmangled(s[1..])
    else if Escapes(s[1..]) then var (u, rest) := Escaped(s[1..]); [u] + Unmangled(rest)
    else [SLASH] + Unmangled(s[1..])
  }

  /** No '.', and no '/' directly followed by characters that turn its underscore into an escape. */
  ghost predicate Clean(text: Name) {
    && DOT !in text
    && forall i :: 0 <= i < |text| && text[i] == SLASH ==> !Escapes(text[i + 1..])
  }

  lemma CleanStep(text: Name)
    requires text != []
    ensures Clean(text) <==> text[0] != DOT && (text[0] == SLASH ==> !Escapes(text[1..])) && Clean(text[1..])
  {
    var tail := text[1..];
    assert forall i :: 0 <= i < |tail| ==> tail[i] == text[i + 1] && tail[i + 1..] == text[i + 2..];
    if Clean(text) {
      forall i | 0 <= i < |tail| && tail[i] == SLASH ensures !Escapes(tail[i + 1..]) {
        assert text[i + 1] == SLASH && text[i + 1 + 1..] == tail[i + 1..];
      }
    }
    if text[0] != DOT && (text[0] == SLASH ==> !Escapes(text[1..])) && Clean(tail) {
      forall i | 0 <= i < |text| && text[i] == SLASH ensures !Escapes(text[i + 1..]) {
        if i > 0 { assert tail[i - 1] == SLASH && tail[i - 1 + 1..] == text[i + 1..]; }
      }
    }
  }

  lemma {:induction false} HexPrefix(text: Name, n: nat)
    ensures HexRun(Mangled(text), n) <==> HexRun(text, n)
  {
    if n > 0 && text != [] {
      assert Mangled(text)[0] == MangleUnit(text[0])[0];
      if IsHex(text[0]) {
        HexPrefix(text[1..], n - 1);
        assert Mangled(text)[1..] == Mangled(text[1..]);
      }
    }
  }

  lemma {:induction false} PlainIsKept(text: Name)
    requires forall u :: u in text ==> IsAsciiAlnum(u)
    ensures Mangled(text) == text
  {
    if text != [] {
      PlainIsKept(text[1..]);
      assert IsAsciiAlnum(text[0]);
    }
  }

  lemma HexPrefixKept(text: Name, n: nat)
    requires HexRun(text, n)
    ensures Mangled(text) == text[..n] + Mangled(text[n..])
  {
    PlainIsKept(text[..n]);
    MangledConcat(text[..n], text[n..]);
    assert text == text[..n] + text[n..];
  }

  /** Escapes are decided by the text itself, because an underscore is not a hexadecimal digit. */
  lemma EscapesOfMangled(text: Name)
    ensures Escapes(Mangled(text)) <==> Escapes(text)
    ensures Escapes(text) ==>
              Escaped(Mangled(text)) == (Escaped(text).0, Mangled(Escaped(text).1))
  {
    if text != [] {
      var tail, s := text[1..], Mangled(text);
      assert s[0] == MangleUnit(text[0])[0];
      if ZERO <= text[0] <= ZERO + 3 {
        assert s[1..] == Mangled(tail);
        HexPrefix(tail, 4);
        if text[0] == ZERO && HexRun(tail, 4) {
          HexPrefixKept(tail, 4);
          assert s[5..] == s[1..][4..] == Mangled(tail[4..]) && tail[4..] == text[5..];
          assert forall k :: 0 <= k < 4 ==> s[1..][k] == tail[..4][k] == tail[k];
        }
      }
    }
  }

  lemma {:induction false} HexRunOf(s: Name, n: nat)
    requires n <= |s| && forall k :: 0 <= k < n ==> IsHex(s[k])
    ensures HexRun(s, n)
  {
    if n > 0 {
      HexRunOf(s[1..], n - 1);
    }
  }

  lemma HexInverse(u: Unit, rest: Name)
    ensures HexRun(Hex4(u) + rest, 4) && FromHex(Hex4(u) + rest) == u
  {
    HexRunOf(Hex4(u) + rest, 4);
    assert u / 0x100 == u / 0x1000 * 16 + u / 0x100 % 16;
    assert u / 16 == u / 0x100 * 16 + u / 16 % 16;
  }

  lemma EscapeInverse(u: Unit, rest: Name)
    requires !IsAsciiAlnum(u) && u != SLASH && u != DOT
    ensures var s := MangleUnit(u) + rest; s[0] == UNDERSCORE && Escapes(s[1..]) && Escaped(s[1..]) == (u, rest)
  {
    var s := MangleUnit(u) + rest;
    if u != UNDERSCORE && u != SEMICOLON && u != BRACKET {
      HexInverse(u, rest);
      assert s[1..][1..] == Hex4(u) + rest && s[1..][5..] == rest;
    } else {
      assert s[1..][1..] == rest;
    }
  }

  lemma UnmangledStep(text: Name)
    requires text != []
    ensures var r, tail := Unmangled(Mangled(text)), text[1..];
      if text[0] != SLASH && text[0] != DOT then r == [text[0]] + Unmangled(Mangled(tail))
      else if Escapes(tail) then r == [Escaped(tail).0] + Unmangled(Mangled(Escaped(tail).1))
      else r == [SLASH] + Unmangled(Mangled(tail))
  {
    var tail := text[1..];
    var s := Mangled(text);
    if IsAsciiAlnum(text[0]) || text[0] == SLASH || text[0] == DOT {
      assert s[1..] == Mangled(tail);
      EscapesOfMangled(tail);
    } else {
      EscapeInverse(text[0], Mangled(tail));
    }
  }

  lemma {:induction false} UnmangledLength(text: Name)
    ensures |Unmangled(Mangled(text))| <= |text|
    decreases |text|
  {
    if text != [] {
      UnmangledStep(text);
      UnmangledLength(text[1..]);
      if Escapes(text[1..]) {
        UnmangledLength(Escaped(text[1..]).1);
      }
    }
  }

  /** `component` can be undone exactly on the clean names. */
  lemma {:induction false} ComponentInvertible(text: Name)
    ensures Unmangled(Mangled(text)) == text <==> Clean(text)
    decreases |text|
  {
    if text != [] {
      var tail := text[1..];
      UnmangledStep(text);
      CleanStep(text);
      ComponentInvertible(tail);
      assert text == [text[0]] + tail;
      var r := Unmangled(Mangled(text));
      if (text[0] == SLASH || text[0] == DOT) && Escapes(tail) {
        UnmangledLength(Escaped(tail).1);
        assert |r| < |text|;
      } else {
        assert r[1..] == Unmangled(Mangled(tail));
      }
    }
  }

  // ------------------------------------------------------------------ whole symbols

  datatype Symbol = Symbol(text: Name) | InvalidSignature

  function Mangle(className: Name, methodName: Name): (r: Name)
    ensures r == JAVA + Mangled(ShortText(className, methodName))
  {
    ShortHomomorphism(className, methodName);
    JAVA + Mangled(className) + [UNDERSCORE] + Mangled(methodName)
  }

  /** The short symbol: Java_, the class, an underscore, the method, the two names mangled. */
  lemma SymbolForm(className: Name, methodName: Name)
    ensures var s, c, m := Mangle(className, methodName), Mangled(className), Mangled(methodName);
      && |s| == 6 + |c| + |m| && Is(s[0], 'J') && Is(s[1], 'a') && Is(s[2], 'v') && Is(s[3], 'a') && Is(s[4], '_')
      && s[5..5 + |c|] == c && Is(s[5 + |c|], '_') && s[6 + |c|..] == m
  {
    ShortHomomorphism(className, methodName);
  }

  function IndexOf(s: Name, u: Unit): (k: nat)
    requires u in s
    ensures k < |s| && s[k] == u && u !in s[..k]
  {
    if s[0] == u then 0 else
      var k := IndexOf(s[1..], u);
      assert s[..k + 1] == [s[0]] + s[1..][..k];
      k + 1
  }

  /** The symbol of a method with argument descriptors `args`. */
  function LongSymbol(className: Name, methodName: Name, args: Name): Name {
    JAVA + Mangled(LongText(className, methodName, args))
  }

  function Overloaded(className: Name, methodName: Name, signature: Name): (r: Symbol)
    ensures r.InvalidSignature? <==> signature == [] || signature[0] != OPEN || CLOSE !in signature
    ensures r.Symbol? ==>
              r.text == LongSymbol(className, methodName, signature[1..IndexOf(signature, CLOSE)])
  {
    if signature == [] || signature[0] != OPEN || CLOSE !in signature then InvalidSignature
    else
      var args := signature[1..IndexOf(signature, CLOSE)];
      LongSymbolSplits(className, methodName, args);
      Symbol(Mangle(className, methodName) + [UNDERSCORE, UNDERSCORE] + Mangled(args))
  }

  /** The texts whose mangling the two symbol forms are, the separators being mangled slashes. */
  function ShortText(className: Name, methodName: Name): Name {
    className + [SLASH] + methodName
  }

  function LongText(className: Name, methodName: Name, args: Name): Name {
    ShortText(className, methodName) + [SLASH, SLASH] + args
  }

  lemma ShortHomomorphism(className: Name, methodName: Name)
    ensures Mangled(ShortText(className, methodName)) == Mangled(className) + [UNDERSCORE] + Mangled(methodName)
  {
    MangledConcat(className + [SLASH], methodName);
    MangledConcat(className, [SLASH]);
    MangledOne(SLASH);
  }

  lemma LongHomomorphism(className: Name, methodName: Name, args: Name)
    ensures Mangled(LongText(className, methodName, args))
            == Mangled(ShortText(className, methodName)) + [UNDERSCORE, UNDERSCORE] + Mangled(args)
  {
    var short := ShortText(className, methodName);
    MangledConcat(short + [SLASH, SLASH], args);
    MangledConcat(short, [SLASH, SLASH]);
    DoubleSlash();
  }

  lemma LongSymbolSplits(className: Name, methodName: Name, args: Name)
    ensures LongSymbol(className, methodName, args)
            == Mangle(className, methodName) + [UNDERSCORE, UNDERSCORE] + Mangled(args)
  {
    LongHomomorphism(className, methodName, args);
    hide Mangled, LongText, ShortText;
  }

  lemma DoubleSlash()
    ensures Mangled([SLASH, SLASH]) == [UNDERSCORE, UNDERSCORE]
  {
    assert [SLASH, SLASH] == [SLASH] + [SLASH];
    MangledConcat([SLASH], [SLASH]);
    MangledOne(SLASH);
  }

  predicate IsReserved(u: Unit) { ZERO <= u <= ZERO + 3 }

  /** Slash-separated parts, none empty, none starting with '0'..'3', no dot: an internal class name. */
  ghost predicate IsPath(s: Name) {
    && s != [] && DOT !in s
    && s[0] != SLASH && !IsReserved(s[0]) && s[|s| - 1] != SLASH
    && forall i :: 0 <= i < |s| - 1 && s[i] == SLASH ==> s[i + 1] != SLASH && !IsReserved(s[i + 1])
  }

  ghost predicate IsMethodName(s: Name) { IsPath(s) && SLASH !in s }

  /** Argument descriptors: empty, or no dot and no '/' or reserved digit at the front or after a '/'. */
  ghost predicate IsArguments(s: Name) {
    s != [] ==>
      && DOT !in s && s[0] != SLASH && !IsReserved(s[0])
      && forall i :: 0 <= i < |s| - 1 && s[i] == SLASH ==> s[i + 1] != SLASH && !IsReserved(s[i + 1])
  }

  ghost predicate SlashSafe(s: Name) {
    && DOT !in s
    && forall i :: 0 <= i < |s| - 1 && s[i] == SLASH ==> !IsReserved(s[i + 1])
  }

  lemma SlashSafeIsClean(s: Name)
    requires SlashSafe(s)
    ensures Clean(s)
  {
    forall i | 0 <= i < |s| && s[i] == SLASH ensures !Escapes(s[i + 1..]) {
      if i + 1 < |s| { assert s[i + 1..][0] == s[i + 1]; }
    }
  }

  lemma TextsAreClean(className: Name, methodName: Name, args: Name)
    requires IsPath(className) && IsMethodName(methodName) && IsArguments(args)
    ensures Clean(ShortText(className, methodName)) && Clean(LongText(className, methodName, args))
  {
    var short, long := ShortText(className, methodName), LongText(className, methodName, args);
    assert SlashSafe(short);
    SlashSafeIsClean(short);
    forall i | 0 <= i < |long| - 1 && long[i] == SLASH ensures !IsReserved(long[i + 1]) {
      if i + 1 < |short| {
        assert long[i] == short[i] && long[i + 1] == short[i + 1];
      } else if i >= |short| + 2 {
        assert long[i] == args[i - |short| - 2] && long[i + 1] == args[i - |short| - 1];
      } else if i == |short| + 1 {
        assert long[i + 1] == args[0];
      } else {
        assert long[i + 1] == SLASH;
      }
    }
    assert SlashSafe(long);
    SlashSafeIsClean(long);
  }

  lemma MangledInjective(a: Name, b: Name)
    requires Clean(a) && Clean(b) && JAVA + Mangled(a) == JAVA + Mangled(b)
    ensures a == b
  {
    StripPrefix(Mangled(a), Mangled(b));
    ComponentInvertible(a);
    ComponentInvertible(b);
  }

  /** The slash before the method name is the last one of a short text, and none is doubled. */
  lemma ShortTextSlashes(c: Name, m: Name)
    requires IsPath(c) && IsMethodName(m)
    ensures forall i :: |c| < i < |ShortText(c, m)| ==> ShortText(c, m)[i] != SLASH
    ensures forall i :: 0 <= i < |ShortText(c, m)| - 1 && ShortText(c, m)[i] == SLASH ==>
              ShortText(c, m)[i + 1] != SLASH
  {
    var s := ShortText(c, m);
    assert forall i :: |c| < i < |s| ==> s[i] == m[i - |c| - 1];
    assert s[|c| + 1] == m[0];
  }

  lemma ShortTextInjective(c1: Name, m1: Name, c2: Name, m2: Name)
    requires IsPath(c1) && IsMethodName(m1) && IsPath(c2) && IsMethodName(m2)
    requires ShortText(c1, m1) == ShortText(c2, m2)
    ensures c1 == c2 && m1 == m2
  {
    var s := ShortText(c1, m1);
    ShortTextSlashes(c1, m1);
    ShortTextSlashes(c2, m2);
    assert s[|c1|] == SLASH && s[|c2|] == SLASH;
    assert c1 == s[..|c1|] && c2 == s[..|c2|] && m1 == s[|c1| + 1..] && m2 == s[|c2| + 1..];
  }

  /** The first double slash of a long text is the one before its arguments. */
  lemma LongTextSplit(c: Name, m: Name, a: Name)
    requires IsPath(c) && IsMethodName(m)
    ensures var t, n := LongText(c, m, a), |ShortText(c, m)|;
      && t[..n] == ShortText(c, m) && t[n] == SLASH && t[n + 1] == SLASH && t[n + 2..] == a
      && forall i :: 0 <= i < n ==> !(t[i] == SLASH && t[i + 1] == SLASH)
  {
    var t, s := LongText(c, m, a), ShortText(c, m);
    ShortTextSlashes(c, m);
    assert forall i :: 0 <= i < |s| ==> t[i] == s[i];
    assert s[|s| - 1] == m[|m| - 1];
  }

  lemma LongTextInjective(c1: Name, m1: Name, a1: Name, c2: Name, m2: Name, a2: Name)
    requires IsPath(c1) && IsMethodName(m1) && IsPath(c2) && IsMethodName(m2)
    requires LongText(c1, m1, a1) == LongText(c2, m2, a2)
    ensures c1 == c2 && m1 == m2 && a1 == a2
  {
    LongTextSplit(c1, m1, a1);
    LongTextSplit(c2, m2, a2);
    ShortTextInjective(c1, m1, c2, m2);
  }

  lemma ShortIsNotLong(c1: Name, m1: Name, c2: Name, m2: Name, a2: Name)
    requires IsPath(c1) && IsMethodName(m1)
    ensures ShortText(c1, m1) != LongText(c2, m2, a2)
  {
    var t, n := LongText(c2, m2, a2), |ShortText(c2, m2)|;
    ShortTextSlashes(c1, m1);
    assert t[n] == SLASH && t[n + 1] == SLASH;
  }

  /** Distinct methods get distinct overloaded symbols, and no short symbol equals an overloaded one. */
  lemma SymbolsAreDistinct(c1: Name, m1: Name, a1: Name, c2: Name, m2: Name, a2: Name)
    requires IsPath(c1) && IsMethodName(m1) && IsArguments(a1)
    requires IsPath(c2) && IsMethodName(m2) && IsArguments(a2)
    ensures Mangle(c1, m1) == Mangle(c2, m2) ==> c1 == c2 && m1 == m2
    ensures LongSymbol(c1, m1, a1) == LongSymbol(c2, m2, a2) ==> c1 == c2 && m1 == m2 && a1 == a2
    ensures Mangle(c1, m1) != LongSymbol(c2, m2, a2)
  {
    var short1, short2 := ShortText(c1, m1), ShortText(c2, m2);
    var long1, long2 := LongText(c1, m1, a1), LongText(c2, m2, a2);
    TextsAreClean(c1, m1, a1);
    TextsAreClean(c2, m2, a2);
    if Mangle(c1, m1) == Mangle(c2, m2) {
      MangledInjective(short1, short2);
      ShortTextInjective(c1, m1, c2, m2);
    }
    if LongSymbol(c1, m1, a1) == LongSymbol(c2, m2, a2) {
      MangledInjective(long1, long2);
      LongTextInjective(c1, m1, a1, c2, m2, a2);
    }
    ShortIsNotLong(c1, m1, c2, m2, a2);
    ComponentInvertible(short1);
    ComponentInvertible(long2);
    StripPrefix(Mangled(short1), Mangled(long2));
  }

  lemma StripPrefix(a: Name, b: Name)
    ensures JAVA + a == JAVA + b <==> a == b
  {
    assert (JAVA + a)[|JAVA|..] == a && (JAVA + b)[|JAVA|..] == b;
  }

  /** Outside the clean names two different classes can share a symbol. */
  lemma UncleanCollision()
    ensures var a: Unit := 0x61;
      var c1: Name, c2: Name := [a, SLASH, ZERO + 1], [a, UNDERSCORE];
      c1 != c2 && Mangled(c1) == Mangled(c2) && !Clean(c1) && Clean(c2)
  {
    var a: Unit := 0x61;
    var c1: Name, c2: Name := [a, SLASH, ZERO + 1], [a, UNDERSCORE];
    assert c1[1..] == [SLASH, ZERO + 1] && c1[1..][1..] == [ZERO + 1] && [ZERO + 1][1..] == [];
    assert c2[1..] == [UNDERSCORE] && [UNDERSCORE][1..] == [];
    assert Mangled([ZERO + 1]) == [ZERO + 1] + [];
    assert Mangled([UNDERSCORE]) == [UNDERSCORE, ZERO + 1] + [];
    assert c1[1] == SLASH && c1[1 + 1..] == [ZERO + 1] && Escapes([ZERO + 1]);
  }
}
