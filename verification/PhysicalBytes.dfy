/** Writing single bytes to physical memory, and copying (library/common/memory-utils.cxx:8-27). */
module PhysicalBytes {
  import opened Align
  import opened NineBits
  import opened Paging
  import opened Translation

  // The word with these four bytes.
  function WordOf(value: nat): (w: Word)
    requires IsU32(value)
    ensures w.page < 0x10_0000 && Value(w) == value
  {
    var low := value % 0x1000;
    LowBits(low);
    Word(Flags(BitsOf(low % 0x200), low / 0x200 % 2 == 1, low / 0x400 % 2 == 1, low / 0x800 == 1), value / 0x1000)
  }

  lemma LowBits(low: nat)
    requires low < 0x1000
    ensures low == low % 0x200 + low / 0x200 % 2 * 0x200 + low / 0x400 % 2 * 0x400 + low / 0x800 * 0x800
    ensures low / 0x800 < 2 && low / 0x200 % 2 < 2 && low / 0x400 % 2 < 2
  {
  }

  // Four bytes, lowest first.
  function Compose(a: nat, b: nat, c: nat, d: nat): (value: nat)
    requires a < 0x100 && b < 0x100 && c < 0x100 && d < 0x100
    ensures IsU32(value)
  {
    a + b * 0x100 + c * 0x1_0000 + d * 0x100_0000
  }

  lemma Composed(a: nat, b: nat, c: nat, d: nat)
    requires a < 0x100 && b < 0x100 && c < 0x100 && d < 0x100
    ensures Compose(a, b, c, d) % 0x100 == a && Compose(a, b, c, d) / 0x100 % 0x100 == b
    ensures Compose(a, b, c, d) / 0x1_0000 % 0x100 == c && Compose(a, b, c, d) / 0x100_0000 % 0x100 == d
  {
    assert Compose(a, b, c, d) / 0x100 == b + c * 0x100 + d * 0x1_0000;
    assert Compose(a, b, c, d) / 0x1_0000 == c + d * 0x100;
  }

  // One byte of the four is replaced.
  function WithByte(value: nat, k: nat, b: nat): (r: nat)
    requires IsU32(value) && b < 0x100
    ensures IsU32(r)
  {
    Compose(
      if k == 0 then b else value % 0x100, if k == 1 then b else value / 0x100 % 0x100,
      if k == 2 then b else value / 0x1_0000 % 0x100, if k == 3 then b else value / 0x100_0000 % 0x100)
  }

  lemma ByteReplaced(value: nat, k: nat, b: nat, j: nat)
    requires IsU32(value) && b < 0x100 && k < 4 && j < 4
    ensures Shift(WithByte(value, k, b), j) % 0x100 == if j == k then b else Shift(value, j) % 0x100
  {
    hide Compose;
    Composed(
      if k == 0 then b else value % 0x100, if k == 1 then b else value / 0x100 % 0x100,
      if k == 2 then b else value / 0x1_0000 % 0x100, if k == 3 then b else value / 0x100_0000 % 0x100);
  }

  // Memory with one byte replaced.
  function SetByte(m: Memory, address: nat, b: nat): (n: Memory)
    requires IsMemory(m) && IsU32(address) && b < 0x100
    ensures IsMemory(n)
  {
    assert IsPage(m[address / 0x1000]);
    var value := WithByte(Value(PhysicalWord(m, address)), address % 4, b);
    SetWord(m, address / 0x1000, address % 0x1000 / 4, WordOf(value))
  }

  lemma SetByteRead(m: Memory, address: nat, b: nat, a: nat)
    requires IsMemory(m) && IsU32(address) && IsU32(a) && b < 0x100
    ensures PhysicalByte(SetByte(m, address, b), a) == if a == address then b else PhysicalByte(m, a)
    ensures forall p :: 0 <= p < 0x10_0000 && p != address / 0x1000 ==> SetByte(m, address, b)[p] == m[p]
  {
    hide WordOf, WithByte, Value, Shift;
    assert IsPage(m[address / 0x1000]);
    Place(a);
    Place(address);
    ByteReplaced(Value(PhysicalWord(m, address)), address % 4, b, a % 4);
  }

  lemma Place(a: nat)
    ensures a == a / 0x1000 * 0x1000 + a % 0x1000 / 4 * 4 + a % 4 && a % 0x1000 / 4 < 0x400
  {
    WordPlace(a);
  }

  // Memory with a sequence of bytes stored at an address.
  function StoreBytes(m: Memory, address: nat, bytes: seq<nat>): (n: Memory)
    requires IsMemory(m) && address + |bytes| <= 0x1_0000_0000 && AreBytes(bytes)
    ensures IsMemory(n)
    decreases |bytes|
  {
    if bytes == [] then m else StoreBytes(SetByte(m, address, bytes[0]), address + 1, bytes[1..])
  }

  ghost predicate AreBytes(bytes: seq<nat>) {
    forall i :: 0 <= i < |bytes| ==> bytes[i] < 0x100
  }

  // Exactly those bytes change.
  lemma {:induction false} StoredBytes(m: Memory, address: nat, bytes: seq<nat>, a: nat)
    requires IsMemory(m) && address + |bytes| <= 0x1_0000_0000 && AreBytes(bytes) && IsU32(a)
    ensures PhysicalByte(StoreBytes(m, address, bytes), a)
      == if address <= a < address + |bytes| then bytes[a - address] else PhysicalByte(m, a)
    decreases |bytes|
  {
    hide PhysicalByte, SetByte;
    if bytes != [] {
      SetByteRead(m, address, bytes[0], a);
      StoredBytes(SetByte(m, address, bytes[0]), address + 1, bytes[1..], a);
    }
  }

  // Within one page, no other page changes.
  lemma {:induction false} StoredInPage(m: Memory, address: nat, bytes: seq<nat>, q: nat)
    requires IsMemory(m) && address + |bytes| <= 0x1_0000_0000 && AreBytes(bytes)
    requires q * 0x1000 <= address && address + |bytes| <= (q + 1) * 0x1000 && q < 0x10_0000
    ensures IsPage(StoreBytes(m, address, bytes)[q])
    ensures StoreBytes(m, address, bytes) == SetPage(m, q, StoreBytes(m, address, bytes)[q])
    decreases |bytes|
  {
    hide SetByte;
    if bytes == [] {
      assert m == m[q := m[q]];
    } else {
      var n := SetByte(m, address, bytes[0]);
      SetByteRead(m, address, bytes[0], address);
      assert address / 0x1000 == q;
      StoredInPage(n, address + 1, bytes[1..], q);
      var k := StoreBytes(n, address + 1, bytes[1..]);
      assert forall p :: 0 <= p < 0x10_0000 && p != q ==> k[p] == n[p] == m[p];
      assert k == m[q := k[q]];
    }
  }

  lemma {:induction false} StoreConcat(m: Memory, address: nat, a: seq<nat>, b: seq<nat>)
    requires IsMemory(m) && address + |a| + |b| <= 0x1_0000_0000 && AreBytes(a) && AreBytes(b)
    ensures AreBytes(a + b)
    ensures StoreBytes(m, address, a + b) == StoreBytes(StoreBytes(m, address, a), address + |a|, b)
    decreases |a|
  {
    hide SetByte;
    if a == [] {
      assert [] + b == b;
    } else {
      assert (a + b)[1..] == a[1..] + b;
      StoreConcat(SetByte(m, address, a[0]), address + 1, a[1..], b);
    }
  }

  // Copies in units of four, two or one bytes, depending on the count.
  method Copy(m: Memory, destination: nat, source: seq<nat>) returns (r: Memory)
    requires IsMemory(m) && AreBytes(source) && destination + |source| <= 0x1_0000_0000
    ensures IsMemory(r) && r == StoreBytes(m, destination, source)
  {
    hide StoreBytes, AreBytes;
    var count := |source|;
    var unit := if count % 8 == 4 || count % 8 == 0 then 4 else if count % 4 == 2 || count % 4 == 0 then 2 else 1;
    UnitFits(count, unit);
    r := m;
    StoreNothing(m, destination, source);
    for i := 0 to count / unit
      invariant IsMemory(r) && i * unit <= count && AreBytes(source[..i * unit])
      invariant r == StoreBytes(m, destination, source[..i * unit])
    {
      UnitInside(i, unit, count);
      BytesPart(source, i * unit, (i + 1) * unit);
      assert source[..(i + 1) * unit] == source[..i * unit] + source[i * unit..(i + 1) * unit];
      StoreConcat(m, destination, source[..i * unit], source[i * unit..(i + 1) * unit]);
      r := StoreBytes(r, destination + i * unit, source[i * unit..(i + 1) * unit]);
    }
    assert source[..count] == source;
  }

  lemma UnitFits(count: nat, unit: nat)
    requires unit == if count % 8 == 4 || count % 8 == 0 then 4 else if count % 4 == 2 || count % 4 == 0 then 2 else 1
    ensures unit > 0 && count / unit * unit == count
  {
  }

  lemma UnitInside(i: nat, unit: nat, count: nat)
    requires unit > 0 && i < count / unit
    ensures i * unit <= (i + 1) * unit == i * unit + unit <= count
  {
    assert (i + 1) * unit <= count / unit * unit;
  }

  lemma BytesPart(bytes: seq<nat>, lo: nat, hi: nat)
    requires AreBytes(bytes) && lo <= hi <= |bytes|
    ensures AreBytes(bytes[lo..hi])
  {
  }

  lemma StoreNothing(m: Memory, address: nat, bytes: seq<nat>)
    requires IsMemory(m) && address <= 0x1_0000_0000
    ensures AreBytes(bytes[..0]) && StoreBytes(m, address, bytes[..0]) == m
  {
  }
}
