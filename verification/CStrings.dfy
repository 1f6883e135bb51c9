/** Reading a NUL-terminated guest string a page at a time. */
module CStrings {
  import opened Bytes
  import opened Common

  const LIMIT := 0x10000

  /** Guest memory maps whole pages. */
  ghost predicate PageWise(m: map<int, Byte>) {
    forall a, b {:trigger a in m, b in m} :: a in m && a / PAGE == b / PAGE ==> b in m
  }

  predicate Mapped(m: map<int, Byte>, at: int, n: nat) { forall a :: at <= a < at + n ==> a in m }

  lemma PartOfPage(m: map<int, Byte>, at: int, n: nat)
    requires PageWise(m) && 0 < n <= PAGE - at % PAGE
    ensures Mapped(m, at, n) <==> at in m
  {
    forall a | at <= a < at + n
      ensures a / PAGE == at / PAGE
    {
      var k := a - at;
      assert a == PAGE * (at / PAGE) + (at % PAGE + k);
    }
  }

  method Read(m: map<int, Byte>, at: int, n: nat) returns (data: seq<Byte>)
    requires Mapped(m, at, n)
    ensures |data| == n && forall i :: 0 <= i < n ==> data[i] == m[at + i]
  {
    data := seq(n, i requires 0 <= i < n => m[at + i]);
  }

  method FindNul(data: seq<Byte>) returns (k: int)
    ensures -1 <= k < |data|
    ensures k == -1 ==> NulFree(data)
    ensures k >= 0 ==> data[k] == 0 && NulFree(data[..k])
  {
    k := 0;
    while k < |data|
      invariant 0 <= k <= |data| && NulFree(data[..k])
    {
      if data[k] == 0 {
        return;
      }
      k := k + 1;
    }
    return -1;
  }

  /**
   * The string is every byte from `address` to the first NUL, the first unmapped page or the 64 KiB limit, whichever
   * comes first: the four clauses leave one possible result.
   */
  method ReadCStrBytes(m: map<int, Byte>, address: int) returns (out: seq<Byte>)
    requires PageWise(m)
    ensures |out| <= LIMIT && NulFree(out) && Mapped(m, address, |out|)
    ensures forall i :: 0 <= i < |out| ==> out[i] == m[address + i]
    ensures |out| < LIMIT ==> address + |out| !in m || m[address + |out|] == 0
  {
    hide PageWise;
    out := [];
    while |out| < LIMIT
      invariant |out| <= LIMIT && NulFree(out) && Mapped(m, address, |out|)
      invariant forall i :: 0 <= i < |out| ==> out[i] == m[address + i]
      decreases LIMIT - |out|
    {
      var current := address + |out|;
      var size := if PAGE - current % PAGE < LIMIT - |out| then PAGE - current % PAGE else LIMIT - |out|;
      PartOfPage(m, current, size);
      if !Mapped(m, current, size) {
        break;
      }
      var chunk := Read(m, current, size);
      var nul := FindNul(chunk);
      if nul != -1 {
        out := out + chunk[..nul];
        break;
      }
      out := out + chunk;
    }
  }
}
