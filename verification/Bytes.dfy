/** Little-endian words and NUL-terminated strings in a byte buffer. */
module Bytes {
  import opened Common

  function Up8(x: int): (r: int)
    ensures x <= r < x + 8 && r % 8 == 0
  {
    (x + 7) / 8 * 8
  }

  /** How many values fit in `n` bytes. */
  function Capacity(n: nat): (r: int)
    ensures r >= 1
  {
    if n == 0 then 1 else 256 * Capacity(n - 1)
  }

  lemma WordSizes()
    ensures Capacity(1) == 0x100 && Capacity(2) == 0x1_0000
    ensures Capacity(4) == 0x1_0000_0000 && Capacity(8) == 0x1_0000_0000_0000_0000
  {
    assert Capacity(4) == 0x1_0000_0000;
  }

  /** Masked to `n` bytes, lowest byte first. */
  function LittleEndian(v: int, n: nat): (r: seq<Byte>)
    ensures |r| == n
    decreases n
  {
    if n == 0 then [] else [v % 256] + LittleEndian(v / 256, n - 1)
  }

  function Value(bs: seq<Byte>): (r: int)
    ensures 0 <= r < Capacity(|bs|)
    decreases |bs|
  {
    if bs == [] then 0 else bs[0] + 256 * Value(bs[1..])
  }

  lemma {:induction false} ValueOfWord(v: int, n: nat)
    ensures Value(LittleEndian(v, n)) == v % Capacity(n)
    decreases n
  {
    if n > 0 {
      ValueOfWord(v / 256, n - 1);
      assert LittleEndian(v, n)[1..] == LittleEndian(v / 256, n - 1);
      ModStep(v, Capacity(n - 1));
    }
  }

  /** Byte `i` of a word is its digit of weight 256^i. */
  lemma {:induction false} ByteOfWord(v: int, n: nat, i: nat)
    requires i < n
    ensures LittleEndian(v, n)[i] == v / Capacity(i) % 256
    decreases n
  {
    if i > 0 {
      ByteOfWord(v / 256, n - 1, i - 1);
      assert LittleEndian(v, n)[i] == LittleEndian(v / 256, n - 1)[i - 1];
      QuotientStep(v, Capacity(i - 1));
    }
  }

  lemma QuotientStep(v: int, c: int)
    requires c >= 1
    ensures v / 256 / c == v / (256 * c)
  {
    var q, r := v / (256 * c), v % (256 * c);
    assert v == 256 * (c * q) + r by { Distribute(c, q, 0); }
    assert v / 256 == c * q + r / 256;
    ModUnique(v / 256, c, q, r / 256);
    assert v / 256 == c * (v / 256 / c) + r / 256;
    SameFactor(c, v / 256 / c, q);
  }

  lemma SameFactor(c: int, a: int, b: int)
    requires c >= 1 && c * a == c * b
    ensures a == b
  {
    assert c * (a - b) == c * a - c * b;
    MultipleIsFar(c, a - b);
  }

  lemma ModStep(v: int, c: int)
    requires c >= 1
    ensures v % 256 + 256 * ((v / 256) % c) == v % (256 * c)
  {
    var q, r := v / 256, v % 256;
    assert q == c * (q / c) + q % c;
    assert v == (256 * c) * (q / c) + (256 * (q % c) + r) by { assert v == 256 * q + r; Distribute(c, q / c, q % c); }
    ModUnique(v, 256 * c, q / c, 256 * (q % c) + r);
  }

  lemma Distribute(c: int, k: int, m: int)
    ensures 256 * (c * k + m) == (256 * c) * k + 256 * m
  {
  }

  lemma ModUnique(v: int, m: int, k: int, r: int)
    requires m >= 1 && v == m * k + r && 0 <= r < m
    ensures v % m == r
  {
    var q := v / m;
    assert v == m * q + v % m;
    assert m * (k - q) == m * k - m * q;
    MultipleIsFar(m, k - q);
  }

  lemma MultipleIsFar(m: int, t: int)
    requires m >= 1
    ensures t >= 1 ==> m * t >= m
    ensures t <= -1 ==> m * t <= -m
  {
    if t >= 1 {
      assert m * (t - 1) >= 0;
    } else if t <= -1 {
      assert m * (-t - 1) >= 0;
    }
  }

  lemma SmallMod(v: int, c: int)
    requires 0 <= v < c
    ensures v % c == v
  {
  }

  lemma SmallWord(v: int, n: nat)
    requires 0 <= v < Capacity(n)
    ensures Value(LittleEndian(v, n)) == v
  {
    ValueOfWord(v, n);
  }

  lemma {:induction false} ValueConcat(a: seq<Byte>, b: seq<Byte>)
    ensures Value(a + b) == Value(a) + Capacity(|a|) * Value(b)
    decreases |a|
  {
    if a == [] {
      assert a + b == b;
    } else {
      assert (a + b)[1..] == a[1..] + b;
      ValueConcat(a[1..], b);
      Distribute(Capacity(|a| - 1), Value(b), Value(a[1..]));
    }
  }

  // ------------------------------------------------------------------ buffers

  predicate Fits(m: seq<Byte>, at: int, n: nat) { 0 <= at && at + n <= |m| }

  function Write(m: seq<Byte>, at: int, data: seq<Byte>): (r: seq<Byte>)
    requires Fits(m, at, |data|)
    ensures |r| == |m|
  {
    m[..at] + data + m[at + |data|..]
  }

  function Slice(m: seq<Byte>, at: int, n: nat): (r: seq<Byte>)
    requires Fits(m, at, n)
    ensures |r| == n
  {
    m[at..at + n]
  }

  lemma WriteThenRead(m: seq<Byte>, at: int, data: seq<Byte>)
    requires Fits(m, at, |data|)
    ensures Slice(Write(m, at, data), at, |data|) == data
  {
  }

  lemma WriteElsewhere(m: seq<Byte>, at: int, data: seq<Byte>, other: int, n: nat)
    requires Fits(m, at, |data|) && Fits(m, other, n)
    requires other + n <= at || at + |data| <= other
    ensures Slice(Write(m, at, data), other, n) == Slice(m, other, n)
  {
    var w := Write(m, at, data);
    forall i | other <= i < other + n
      ensures w[i] == m[i]
    {
    }
  }

  lemma SliceOfSlice(m: seq<Byte>, at: int, n: nat, i: int, k: nat)
    requires Fits(m, at, n) && 0 <= i && i + k <= n
    ensures Slice(m, at + i, k) == Slice(m, at, n)[i..i + k]
  {
    var s := Slice(m, at, n);
    assert forall j {:trigger s[i..i + k][j]} :: 0 <= j < k ==> s[i..i + k][j] == m[at + (i + j)];
    assert m[at..][i..i + k] == m[at + i..at + i + k];
    assert s == m[at..][..n];
  }

  predicate Holds(m: seq<Byte>, at: int, data: seq<Byte>) { Fits(m, at, |data|) && Slice(m, at, |data|) == data }

  lemma PartHeld(m: seq<Byte>, at: int, data: seq<Byte>, start: nat, part: seq<Byte>)
    requires Holds(m, at, data) && start + |part| <= |data| && data[start..start + |part|] == part
    ensures Holds(m, at + start, part)
  {
    SliceOfSlice(m, at, |data|, start, |part|);
  }

  lemma HeldJoin(m: seq<Byte>, at: int, a: seq<Byte>, b: seq<Byte>)
    requires Holds(m, at, a) && Holds(m, at + |a|, b)
    ensures Holds(m, at, a + b)
  {
    assert m[at..at + |a| + |b|] == m[at..at + |a|] + m[at + |a|..at + |a| + |b|];
  }

  /** Filling part of a buffer keeps whatever it held elsewhere. */
  lemma Blit(m: seq<Byte>, at: int, data: seq<Byte>)
    requires Fits(m, at, |data|)
    ensures Holds(Write(m, at, data), at, data)
    ensures forall a, d {:trigger Holds(m, a, d)} ::
              Holds(m, a, d) && (a + |d| <= at || at + |data| <= a) ==> Holds(Write(m, at, data), a, d)
  {
    WriteThenRead(m, at, data);
    forall a, d | Holds(m, a, d) && (a + |d| <= at || at + |data| <= a)
      ensures Holds(Write(m, at, data), a, d)
    {
      WriteElsewhere(m, at, data, a, |d|);
    }
  }

  /** The buffers do not differ at or after `at`. */
  predicate SameFrom(m: seq<Byte>, m': seq<Byte>, at: int) {
    |m| == |m'| && 0 <= at <= |m| && m[at..] == m'[at..]
  }

  lemma SameFromSelf(m: seq<Byte>, at: int)
    requires 0 <= at <= |m|
    ensures SameFrom(m, m, at)
  {
  }

  lemma SameFromWrite(m: seq<Byte>, m': seq<Byte>, at: int, data: seq<Byte>, from: int)
    requires SameFrom(m, m', from) && Fits(m', at, |data|) && at + |data| <= from
    ensures SameFrom(m, Write(m', at, data), from)
  {
    WriteElsewhere(m', at, data, from, |m'| - from);
    var w := Write(m', at, data);
    assert Slice(m', from, |m'| - from) == m'[from..];
    assert Slice(w, from, |m'| - from) == w[from..];
  }

  /** The word at `at`, or -1 when it is not wholly inside the buffer. */
  function Word(m: seq<Byte>, at: int, n: nat): int {
    if Fits(m, at, n) then Value(Slice(m, at, n)) else -1
  }

  lemma HeldWord(m: seq<Byte>, at: int, v: int, n: nat)
    requires Holds(m, at, LittleEndian(v, n))
    ensures Word(m, at, n) == v % Capacity(n)
  {
    ValueOfWord(v, n);
  }

  // ------------------------------------------------------------------ NUL-terminated strings

  /** The bytes before the first NUL. */
  function Text(s: seq<Byte>): seq<Byte>
    decreases |s|
  {
    if s == [] || s[0] == 0 then [] else [s[0]] + Text(s[1..])
  }

  predicate NulFree(s: seq<Byte>) { forall i :: 0 <= i < |s| ==> s[i] != 0 }

  lemma {:induction false} TextOfNulFree(s: seq<Byte>)
    requires NulFree(s)
    ensures Text(s) == s
    decreases |s|
  {
    if s != [] {
      TextOfNulFree(s[1..]);
    }
  }

  /** The string a reader finds at `at`. */
  function CString(m: seq<Byte>, at: int): seq<Byte> {
    if 0 <= at <= |m| then Text(m[at..]) else []
  }

  lemma {:induction false} TextOfTerminated(s: seq<Byte>, t: seq<Byte>)
    requires |s| < |t| && t[|s|] == 0 && forall i :: 0 <= i < |s| ==> t[i] == s[i]
    ensures Text(t) == Text(s)
    decreases |s|
  {
    if s != [] {
      TextOfTerminated(s[1..], t[1..]);
    }
  }

  /** A terminated copy of `s` reads back as `s` up to its first NUL. */
  lemma CStringAt(m: seq<Byte>, at: int, s: seq<Byte>)
    requires Fits(m, at, |s| + 1) && Slice(m, at, |s| + 1) == s + [0]
    ensures CString(m, at) == Text(s)
  {
    hide Text;
    var t := m[at..];
    forall i | 0 <= i <= |s|
      ensures t[i] == (s + [0])[i]
    {
      assert t[i] == Slice(m, at, |s| + 1)[i];
    }
    TextOfTerminated(s, t);
  }

  // ------------------------------------------------------------------ tables

  /** The first `k` rows, one after another. */
  function Rows(rows: seq<seq<Byte>>, k: nat): seq<Byte>
    requires k <= |rows|
  {
    if k == 0 then [] else Rows(rows, k - 1) + rows[k - 1]
  }

  lemma HeldInPrefix(m: seq<Byte>, more: seq<Byte>, at: int, data: seq<Byte>)
    requires Holds(m, at, data)
    ensures Holds(m + more, at, data)
  {
    assert (m + more)[at..at + |data|] == m[at..at + |data|];
  }

  /** A table holds each of its rows, of whatever sizes, after the rows before it. */
  lemma {:induction false} RowHeld(rows: seq<seq<Byte>>, k: nat, n: nat)
    requires k < n <= |rows|
    ensures Holds(Rows(rows, n), |Rows(rows, k)|, rows[k])
  {
    if k < n - 1 {
      RowHeld(rows, k, n - 1);
      HeldInPrefix(Rows(rows, n - 1), rows[n - 1], |Rows(rows, k)|, rows[k]);
    }
  }

  lemma RowsStep(rows: seq<seq<Byte>>, n: nat)
    requires 0 < n <= |rows|
    ensures Rows(rows, n) == Rows(rows, n - 1) + rows[n - 1]
  {
  }

  /** A buffer that holds each row in its place holds the table. */
  lemma {:induction false} RowsMakeTable(m: seq<Byte>, rows: seq<seq<Byte>>, n: nat)
    requires n <= |rows| && forall k :: 0 <= k < n ==> Holds(m, |Rows(rows, k)|, rows[k])
    ensures Holds(m, 0, Rows(rows, n))
  {
    hide Holds, Rows;
    if n > 0 {
      RowsStep(rows, n);
      RowsMakeTable(m, rows, n - 1);
      HeldJoin(m, 0, Rows(rows, n - 1), rows[n - 1]);
    } else {
      NothingHeld(m, rows);
    }
  }

  lemma NothingHeld(m: seq<Byte>, rows: seq<seq<Byte>>)
    ensures Holds(m, 0, Rows(rows, 0))
  {
  }

  predicate Even(rows: seq<seq<Byte>>, size: nat) { forall i :: 0 <= i < |rows| ==> |rows[i]| == size }

  /** Where row `k` of a table of `size`-byte rows starts. */
  function Offset(k: nat, size: nat): (r: nat) { k * size }

  lemma OffsetStep(k: nat, size: nat)
    ensures Offset(k + 1, size) == Offset(k, size) + size
  {
  }

  lemma {:induction false} RowOfTable(rows: seq<seq<Byte>>, size: nat, k: nat, n: nat)
    requires Even(rows, size) && k < n <= |rows|
    ensures |Rows(rows, n)| == Offset(n, size) && Offset(k, size) + size <= Offset(n, size)
    ensures Rows(rows, n)[Offset(k, size)..Offset(k, size) + size] == rows[k]
  {
    hide Offset;
    RowsLength(rows, size, n - 1);
    OffsetStep(n - 1, size);
    if k < n - 1 {
      RowOfTable(rows, size, k, n - 1);
      assert Rows(rows, n)[..Offset(n - 1, size)] == Rows(rows, n - 1);
    }
  }

  lemma {:induction false} RowsLength(rows: seq<seq<Byte>>, size: nat, n: nat)
    requires Even(rows, size) && n <= |rows|
    ensures |Rows(rows, n)| == Offset(n, size)
  {
    if n > 0 {
      RowsLength(rows, size, n - 1);
      OffsetStep(n - 1, size);
    }
  }

  lemma RowAt(m: seq<Byte>, at: int, rows: seq<seq<Byte>>, size: nat, k: nat)
    requires Even(rows, size) && k < |rows| && Holds(m, at, Rows(rows, |rows|))
    ensures Holds(m, at + Offset(k, size), rows[k])
  {
    hide Rows, Holds, Offset;
    RowOfTable(rows, size, k, |rows|);
    PartHeld(m, at, Rows(rows, |rows|), Offset(k, size), rows[k]);
  }

  function WordRows(ws: seq<int>, n: nat): (r: seq<seq<Byte>>)
    ensures |r| == |ws| && Even(r, n)
  {
    seq(|ws|, i requires 0 <= i < |ws| => LittleEndian(ws[i], n))
  }

  /** A table of `n`-byte words gives back each word, masked to its width. */
  lemma WordAt(m: seq<Byte>, at: int, ws: seq<int>, n: nat, k: nat)
    requires k < |ws| && Holds(m, at, Rows(WordRows(ws, n), |ws|))
    ensures Word(m, at + Offset(k, n), n) == ws[k] % Capacity(n)
  {
    hide Rows, Capacity, LittleEndian, Holds, Word, Offset;
    RowAt(m, at, WordRows(ws, n), n, k);
    HeldWord(m, at + Offset(k, n), ws[k], n);
  }

  lemma EmptyTable(m: seq<Byte>, at: int, rows: seq<seq<Byte>>, above: int)
    requires 0 <= at <= above <= |m|
    ensures Holds(m, at, Rows(rows, 0)) && SameFrom(m, m, above)
  {
  }

  /** Writing the next word of a table that lies wholly below `above`. */
  lemma TableStep(start: seq<Byte>, m: seq<Byte>, at: int, ws: seq<int>, n: nat, k: nat, above: int)
    requires k < |ws| && Holds(m, at, Rows(WordRows(ws, n), k)) && 0 <= at && at + Offset(|ws|, n) <= above
    requires SameFrom(start, m, above)
    ensures Fits(m, at + Offset(k, n), n)
    ensures var w := Write(m, at + Offset(k, n), LittleEndian(ws[k], n));
      Holds(w, at, Rows(WordRows(ws, n), k + 1)) && SameFrom(start, w, above)
  {
    var rows := WordRows(ws, n);
    hide Holds, Write, LittleEndian, Offset;
    RowOfTable(rows, n, k, |ws|);
    RowsLength(rows, n, k);
    Blit(m, at + Offset(k, n), rows[k]);
    HeldJoin(Write(m, at + Offset(k, n), rows[k]), at, Rows(rows, k), rows[k]);
    SameFromWrite(start, m, at + Offset(k, n), rows[k], above);
  }
}
