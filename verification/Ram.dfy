/** Byte-addressed memory (include/ram.h). */
module Ram {
  import opened Words
  import opened Traps

  // ---------------------------------------------------------------- little-endian bytes

  function Pow256(n: nat): (p: nat)
    ensures p > 0
  {
    if n == 0 then 1 else 256 * Pow256(n - 1)
  }

  /** Byte k of a number, from the least significant one. */
  function ByteOf(d: nat, k: nat): byte
    decreases k
  {
    if k == 0 then d % 256 else ByteOf(d / 256, k - 1)
  }

  /** `memcpy` of n bytes from mem[i..] into a zeroed integer. */
  function LoadBytes(mem: seq<byte>, i: nat, n: nat): nat
    requires i + n <= |mem|
    decreases n
  {
    if n == 0 then 0 else mem[i] + 256 * LoadBytes(mem, i + 1, n - 1)
  }

  /** `memcpy` of the n low bytes of an integer into mem[i..]. */
  function StoreBytes(mem: seq<byte>, i: nat, n: nat, d: nat): (r: seq<byte>)
    requires i + n <= |mem|
    ensures |r| == |mem|
    decreases n
  {
    if n == 0 then mem else StoreBytes(mem[i := d % 256], i + 1, n - 1, d / 256)
  }

  lemma {:induction false} LoadBytesBound(mem: seq<byte>, i: nat, n: nat)
    requires i + n <= |mem|
    ensures LoadBytes(mem, i, n) < Pow256(n)
    decreases n
  {
    if n > 0 {
      LoadBytesBound(mem, i + 1, n - 1);
    }
  }

  /** What a load sees: byte k of the result is the byte at i + k, and nothing else. */
  lemma {:induction false} LoadedByte(mem: seq<byte>, i: nat, n: nat, k: nat)
    requires i + n <= |mem|
    ensures ByteOf(LoadBytes(mem, i, n), k) == if k < n then mem[i + k] else 0
    decreases n, k
  {
    if n == 0 {
      if k > 0 { LoadedByte(mem, i, n, k - 1); }
    } else if k > 0 {
      LoadedByte(mem, i + 1, n - 1, k - 1);
    }
  }

  /** What a store does: bytes inside the range come from the data, all others stay. */
  lemma {:induction false} StoredByte(mem: seq<byte>, i: nat, n: nat, d: nat, j: nat)
    requires i + n <= |mem| && j < |mem|
    ensures StoreBytes(mem, i, n, d)[j] == if i <= j < i + n then ByteOf(d, j - i) else mem[j]
    decreases n
  {
    if n > 0 {
      StoredByte(mem[i := d % 256], i + 1, n - 1, d / 256, j);
    }
  }

  /** A load of any width at any offset after a store sees the written bytes where the two ranges
      overlap and the old bytes elsewhere. */
  lemma LoadAfterStore(mem: seq<byte>, i: nat, n: nat, d: nat, j: nat, m: nat, k: nat)
    requires i + n <= |mem| && j + m <= |mem| && k < m
    ensures ByteOf(LoadBytes(StoreBytes(mem, i, n, d), j, m), k)
         == if i <= j + k < i + n then ByteOf(d, j + k - i) else mem[j + k]
  {
    LoadedByte(StoreBytes(mem, i, n, d), j, m, k);
    StoredByte(mem, i, n, d, j + k);
  }

  lemma {:induction false} LoadDependsOnRange(mem: seq<byte>, mem': seq<byte>, i: nat, n: nat)
    requires i + n <= |mem| && |mem'| == |mem|
    requires forall j :: i <= j < i + n ==> mem[j] == mem'[j]
    ensures LoadBytes(mem, i, n) == LoadBytes(mem', i, n)
    decreases n
  {
    if n > 0 {
      LoadDependsOnRange(mem, mem', i + 1, n - 1);
    }
  }

  /** A store changes no load from a disjoint range. */
  lemma LoadDisjoint(mem: seq<byte>, i: nat, n: nat, d: nat, j: nat, m: nat)
    requires i + n <= |mem| && j + m <= |mem| && (i + n <= j || j + m <= i)
    ensures LoadBytes(StoreBytes(mem, i, n, d), j, m) == LoadBytes(mem, j, m)
  {
    forall x | j <= x < j + m
      ensures StoreBytes(mem, i, n, d)[x] == mem[x]
    {
      StoredByte(mem, i, n, d, x);
    }
    LoadDependsOnRange(StoreBytes(mem, i, n, d), mem, j, m);
  }

  /** Store, then load the same range: the data modulo 2^(8n). */
  lemma {:induction false} LoadSameRange(mem: seq<byte>, i: nat, n: nat, d: nat)
    requires i + n <= |mem|
    ensures LoadBytes(StoreBytes(mem, i, n, d), i, n) == d % Pow256(n)
    decreases n
  {
    if n > 0 {
      var mem' := mem[i := d % 256];
      LoadSameRange(mem', i + 1, n - 1, d / 256);
      StoredByte(mem', i + 1, n - 1, d / 256, i);
      ModStep(d, Pow256(n - 1));
    }
  }

  lemma ModStep(d: nat, p: nat)
    requires p > 0
    ensures d % (256 * p) == d % 256 + 256 * (d / 256 % p)
  {
    ModParts(d, p, d / 256 / p, d / 256 % p, d % 256);
  }

  lemma ModParts(d: nat, p: nat, q: nat, r: nat, t: nat)
    requires t < 256 && r < p && d == 256 * (p * q + r) + t
    ensures d % (256 * p) == t + 256 * r
  {
    assert d == (256 * p) * q + (t + 256 * r);
    DivModUnique(d, 256 * p, q, t + 256 * r);
  }

  /** A wide load is two adjacent narrower loads. */
  lemma {:induction false} LoadSplit(mem: seq<byte>, i: nat, m: nat, n: nat)
    requires i + m + n <= |mem|
    ensures LoadBytes(mem, i, m + n) == LoadBytes(mem, i, m) + Pow256(m) * LoadBytes(mem, i + m, n)
    decreases m
  {
    if m > 0 {
      LoadSplit(mem, i + 1, m - 1, n);
      ByteProduct(Pow256(m - 1), LoadBytes(mem, i + m, n));
    }
  }

  lemma ByteProduct(p: nat, h: nat)
    ensures (256 * p) * h == 256 * (p * h)
  {
  }

  function DropBytes(d: nat, m: nat): nat {
    if m == 0 then d else DropBytes(d / 256, m - 1)
  }

  /** A wide store is two adjacent narrower stores, the second of the remaining high bytes. */
  lemma {:induction false} StoreSplit(mem: seq<byte>, i: nat, m: nat, n: nat, d: nat)
    requires i + m + n <= |mem|
    ensures StoreBytes(mem, i, m + n, d) == StoreBytes(StoreBytes(mem, i, m, d), i + m, n, DropBytes(d, m))
    decreases m
  {
    if m > 0 {
      StoreSplit(mem[i := d % 256], i + 1, m - 1, n, d / 256);
    }
  }

  /** n one-byte stores. */
  function StoreOneByOne(mem: seq<byte>, i: nat, n: nat, d: nat): (r: seq<byte>)
    requires i + n <= |mem|
    ensures |r| == |mem|
    decreases n
  {
    if n == 0 then mem
    else StoreBytes(StoreOneByOne(mem, i, n - 1, d), i + n - 1, 1, DropBytes(d, n - 1))
  }

  lemma {:induction false} StoreIsOneByOne(mem: seq<byte>, i: nat, n: nat, d: nat)
    requires i + n <= |mem|
    ensures StoreBytes(mem, i, n, d) == StoreOneByOne(mem, i, n, d)
    decreases n
  {
    if n > 0 {
      StoreIsOneByOne(mem, i, n - 1, d);
      StoreSplit(mem, i, n - 1, 1, d);
    }
  }

  lemma Pow256Values()
    ensures Pow256(1) == 256 && Pow256(2) == 0x1_0000 && Pow256(4) == TWO32 && Pow256(8) == TWO64
  {
  }

  // ---------------------------------------------------------------- RAM::Load and RAM::Store

  predicate IsAccessSize(size: int) {
    size == 1 || size == 2 || size == 4 || size == 8
  }

  datatype StoreResult =
    | Stored(mem: seq<byte>)
    | StoreFault(cause: Cause)
    | StoreLost

  lemma LoadFits(mem: seq<byte>, i: nat, n: nat)
    requires i + n <= |mem| && IsAccessSize(n)
    ensures LoadBytes(mem, i, n) < TWO64
  {
    Pow256Values();
    LoadBytesBound(mem, i, n);
  }

  /** The `memcpy` of an access that starts in range but runs past the end is undefined. */
  function RamLoad(mem: seq<byte>, i: nat, size: int): Access {
    if !IsAccessSize(size) then Fault(LOAD_ACCESS_FAULT)
    else if i + size > |mem| then NoValue
    else
      LoadFits(mem, i, size);
      Data(LoadBytes(mem, i, size))
  }

  function RamStore(mem: seq<byte>, i: nat, size: int, d: u64): StoreResult {
    if !IsAccessSize(size) then StoreFault(STORE_ACCESS_FAULT)
    else if i + size > |mem| then StoreLost
    else Stored(StoreBytes(mem, i, size, d))
  }

  /** An 8-byte access is two 4-byte accesses: the first of the low half, the second, 4 bytes further,
      of the high half. */
  lemma WideAccess(mem: seq<byte>, i: nat, d: u64)
    requires i + 8 <= |mem|
    ensures var first := RamStore(mem, i, 4, d);
            first.Stored? && RamStore(mem, i, 8, d) == RamStore(first.mem, i + 4, 4, d / TWO32)
    ensures var lo, hi := RamLoad(mem, i, 4), RamLoad(mem, i + 4, 4);
            lo.Data? && hi.Data? && RamLoad(mem, i, 8) == Data(Wrap(lo.value + TWO32 * hi.value))
  {
    StoreSplit(mem, i, 4, 4, d);
    DropFourBytes(d);
    WideLoad(mem, i);
  }

  lemma DropFourBytes(d: u64)
    ensures DropBytes(d, 4) == d / TWO32
  {
    var a := d / 256;
    var b := a / 256;
    var c := b / 256;
    assert DropBytes(d, 4) == DropBytes(a, 3);
    assert DropBytes(a, 3) == DropBytes(b, 2);
    assert DropBytes(b, 2) == DropBytes(c, 1);
    assert DropBytes(c, 1) == DropBytes(c / 256, 0);
  }

  lemma WideLoad(mem: seq<byte>, i: nat)
    requires i + 8 <= |mem|
    ensures RamLoad(mem, i, 8) == Data(Wrap(LoadBytes(mem, i, 4) + TWO32 * LoadBytes(mem, i + 4, 4)))
  {
    LoadSplit(mem, i, 4, 4);
    LoadFits(mem, i, 8);
    Pow256Values();
  }

  class RAM {
    const base: u64
    const mem: array<byte>

    /** `mem()` zeroes the array; `std::copy` then writes the image over its start. */
    constructor (base: u64, size: nat, image: seq<byte>)
      requires |image| <= size
      ensures this.base == base && fresh(mem) && mem.Length == size
      ensures mem[..] == image + seq(size - |image|, k => 0)
    {
      this.base := base;
      mem := new byte[size](k => 0);
      new;
      for k := 0 to |image|
        invariant mem[..k] == image[..k]
        invariant forall x :: k <= x < size ==> mem[x] == 0
      {
        mem[k] := image[k];
      }
      assert mem[..] == image + seq(size - |image|, k => 0);
    }

    predicate IsValidAddr(addr: u64) {
      base <= addr < base + mem.Length
    }

    method Load(addr: u64, size: int) returns (r: Access)
      requires IsValidAddr(addr)
      ensures r == RamLoad(mem[..], addr - base, size)
    {
      var index := addr - base;
      if !IsAccessSize(size) {
        return Fault(LOAD_ACCESS_FAULT);
      }
      if index + size > mem.Length {
        return NoValue;
      }
      var data: nat := 0;
      for k := size downto 0
        invariant data == LoadBytes(mem[..], index + k, size - k)
      {
        data := mem[index + k] + 256 * data;
      }
      LoadFits(mem[..], index, size);
      return Data(data);
    }

    method Store(addr: u64, size: int, data: u64) returns (r: Outcome)
      requires IsValidAddr(addr)
      modifies mem
      ensures match RamStore(old(mem[..]), addr - base, size, data)
              case Stored(m) => r == Normal && mem[..] == m
              case StoreFault(c) => r == Thrown(c) && mem[..] == old(mem[..])
              case StoreLost => r == Undefined
    {
      var index := addr - base;
      if !IsAccessSize(size) {
        return Thrown(STORE_ACCESS_FAULT);
      }
      if index + size > mem.Length {
        return Undefined;
      }
      var d: nat := data;
      for k := 0 to size
        invariant StoreBytes(old(mem[..]), index, size, data) == StoreBytes(mem[..], index + k, size - k, d)
      {
        ghost var before := mem[..];
        mem[index + k] := d % 256;
        assert mem[..] == before[index + k := (d % 256) as byte];
        d := d / 256;
      }
      return Normal;
    }
  }
}
