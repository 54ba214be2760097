/** Ethernet addresses: six bytes, most significant first.

    The 48-bit number of an address shifts each byte up by eight for every byte that follows,
    as the drivers do when they pack an address into a hash key or a table entry. */
module Macs {

  type Byte = b: nat | b < 0x100
  type Mac = m: seq<Byte> | |m| == 6 witness [0, 0, 0, 0, 0, 0]

  // The numbers that n bytes can hold.
  function Limit(n: nat): (l: nat)
    ensures l > 0
  {
    if n == 0 then 1 else Limit(n - 1) * 0x100
  }

  // Each byte shifted up by eight for every byte after it.
  function Number(bs: seq<Byte>): (v: nat)
    ensures v < Limit(|bs|)
  {
    if bs == [] then 0 else Number(bs[..|bs| - 1]) * 0x100 + bs[|bs| - 1]
  }

  function Mac48(m: Mac): (v: nat)
    ensures v < 0x1_0000_0000_0000
  {
    Limits();
    Number(m)
  }

  lemma Limits()
    ensures Limit(2) == 0x1_0000 && Limit(4) == 0x1_0000_0000 && Limit(6) == 0x1_0000_0000_0000
  {
  }

  lemma ByteSplits(high: nat, low: Byte, v: nat)
    requires v == high * 0x100 + low
    ensures v % 0x100 == low && v / 0x100 == high && v % 2 == low % 2
  {
  }

  // The last byte is the number's low byte.
  lemma LastByte(bs: seq<Byte>)
    requires bs != []
    ensures Number(bs) % 0x100 == bs[|bs| - 1] && Number(bs) / 0x100 == Number(bs[..|bs| - 1])
    ensures Number(bs) % 2 == bs[|bs| - 1] % 2
  {
    ByteSplits(Number(bs[..|bs| - 1]), bs[|bs| - 1], Number(bs));
  }

  lemma {:induction false} NumberInjective(a: seq<Byte>, b: seq<Byte>)
    requires |a| == |b| && Number(a) == Number(b)
    ensures a == b
  {
    if a != [] {
      LastByte(a);
      LastByte(b);
      NumberInjective(a[..|a| - 1], b[..|b| - 1]);
    }
  }

  lemma Mac48Injective(m: Mac, m': Mac)
    requires Mac48(m) == Mac48(m')
    ensures m == m'
  {
    NumberInjective(m, m');
  }
}
