/** Map patching in `librex/lib/librex.cpp`: descriptors of the maps created by the loader
    are written into the `kptr` fields of the program image. */

module LoaderPatch {
  import opened Bytes

  const MAP_DEF: nat := 32  // sizeof(map_def)
  const KPTR: nat := 24     // offsetof(map_def, kptr)
  const KPTR_SIZE: nat := 8

  /** The `.maps` section: its address, its file offset and its size. */
  datatype Section = Section(addr: nat, off: nat, size: nat)

  /** An entry of the symbol table. */
  datatype Symbol = Symbol(inMaps: bool, isObject: bool, addr: nat, size: nat, name: string)

  predicate IsMap(sym: Symbol) { sym.inMaps && sym.isObject && sym.size == MAP_DEF }

  predicate IsMapAt(sym: Symbol, addr: nat) { IsMap(sym) && sym.addr == addr }

  /** One of the first `k` symbols is a map at `addr`. */
  predicate Names(symbols: seq<Symbol>, k: nat, addr: nat)
    requires k <= |symbols|
  {
    exists i :: 0 <= i < k && IsMapAt(symbols[i], addr)
  }

  /** `parse_maps`: the definitions are keyed by address, and an alias of a definition that is
      already there is dropped. */
  method ParseMaps(symbols: seq<Symbol>) returns (defs: map<nat, string>)
    ensures forall a :: a in defs <==> Names(symbols, |symbols|, a)
    ensures forall a :: a in defs ==>
              exists i :: 0 <= i < |symbols| && symbols[i].addr == a && symbols[i].inMaps && symbols[i].isObject && symbols[i].size == 32
    ensures forall i :: 0 <= i < |symbols| && symbols[i].inMaps && symbols[i].isObject && symbols[i].size == 32 ==>
              symbols[i].addr in defs
    ensures forall i :: 0 <= i < |symbols| && IsMap(symbols[i]) && IsFirst(symbols, i) ==>
              symbols[i].addr in defs && defs[symbols[i].addr] == symbols[i].name
  {
    defs := map[];
    var k := 0;
    while k < |symbols|
      invariant k <= |symbols|
      invariant forall a :: a in defs <==> Names(symbols, k, a)
      invariant forall i :: 0 <= i < k && IsMap(symbols[i]) && IsFirst(symbols, i) ==>
                  symbols[i].addr in defs && defs[symbols[i].addr] == symbols[i].name
    {
      var sym := symbols[k];
      if IsMap(sym) && sym.addr !in defs {
        defs := defs[sym.addr := sym.name];
      }
      k := k + 1;
    }
  }

  /** No earlier map symbol has the address of symbol `i`. */
  predicate IsFirst(symbols: seq<Symbol>, i: nat)
    requires i < |symbols|
  {
    forall j :: 0 <= j < i && IsMap(symbols[j]) ==> symbols[j].addr != symbols[i].addr
  }

  /** What a linker guarantees of the objects of a section: they lie in it, and two of them are at
      the same place or do not overlap. */
  predicate LinkedIn(s: Section, symbols: seq<Symbol>) {
    && (forall i :: 0 <= i < |symbols| && IsMap(symbols[i]) ==>
          s.addr <= symbols[i].addr && symbols[i].addr + MAP_DEF <= s.addr + s.size)
    && (forall i, j :: 0 <= i < j < |symbols| && IsMap(symbols[i]) && IsMap(symbols[j]) ==>
          || symbols[i].addr == symbols[j].addr
          || symbols[i].addr + MAP_DEF <= symbols[j].addr
          || symbols[j].addr + MAP_DEF <= symbols[i].addr)
  }

  /** Any order in which the table's keys are visited is well placed, aliases or not. */
  lemma AnyOrderWellPlaced(s: Section, symbols: seq<Symbol>, table: set<nat>, defs: seq<MapDef>, fileSize: nat)
    requires s.off + s.size <= fileSize && LinkedIn(s, symbols)
    requires forall a :: a in table <==> Names(symbols, |symbols|, a)
    requires forall i :: 0 <= i < |defs| ==> defs[i].addr in table
    requires forall i, j :: 0 <= i < j < |defs| ==> defs[i].addr != defs[j].addr
    ensures WellPlaced(s, defs, fileSize)
  {
    forall i | 0 <= i < |defs| ensures s.addr <= defs[i].addr && defs[i].addr + MAP_DEF <= s.addr + s.size {
      assert Names(symbols, |symbols|, defs[i].addr);
    }
    forall i, j | 0 <= i < j < |defs|
      ensures defs[i].addr + MAP_DEF <= defs[j].addr || defs[j].addr + MAP_DEF <= defs[i].addr
    {
      NamedApart(s, symbols, defs[i].addr, defs[j].addr);
    }
  }

  lemma NamedApart(s: Section, symbols: seq<Symbol>, a: nat, b: nat)
    requires LinkedIn(s, symbols) && a != b
    requires Names(symbols, |symbols|, a) && Names(symbols, |symbols|, b)
    ensures a + MAP_DEF <= b || b + MAP_DEF <= a
  {
    var x :| 0 <= x < |symbols| && IsMapAt(symbols[x], a);
    var y :| 0 <= y < |symbols| && IsMapAt(symbols[y], b);
    assert x < y || y < x;
  }

  /** A definition as `fix_maps` meets it: the address of its symbol, and what `BPF_MAP_CREATE`
      returns for it, a descriptor or a negative number. */
  datatype MapDef = MapDef(addr: nat, fd: int)

  /** The definitions lie in the section and do not overlap, and the section in the file. */
  predicate WellPlaced(s: Section, defs: seq<MapDef>, fileSize: nat) {
    && s.off + s.size <= fileSize
    && (forall i :: 0 <= i < |defs| ==> s.addr <= defs[i].addr && defs[i].addr + MAP_DEF <= s.addr + s.size)
    && (forall i, j :: 0 <= i < j < |defs| ==>
          defs[i].addr + MAP_DEF <= defs[j].addr || defs[j].addr + MAP_DEF <= defs[i].addr)
  }

  /** File offset of the definition at `addr`. */
  function FileOffset(s: Section, addr: nat): int { addr - s.addr + s.off }

  /** The address that `load` sends to the kernel for a map. */
  function SentAddress(d: MapDef): nat { d.addr + KPTR }

  /** The eight bytes of a descriptor. */
  function U64(v: nat, n: nat): (b: seq<byte>)
    ensures |b| == n
  {
    if n == 0 then [] else [v % 256] + U64(v / 256, n - 1)
  }

  function ReadU64(b: seq<byte>): nat {
    if b == [] then 0
    else
      var low: int := b[0];
      low + 256 * ReadU64(b[1..])
  }

  function Pow256(n: nat): (p: nat)
    ensures p > 0
  {
    if n == 0 then 1 else 256 * Pow256(n - 1)
  }

  lemma {:induction false} U64RoundTrip(v: nat, n: nat)
    requires v < Pow256(n)
    ensures ReadU64(U64(v, n)) == v
  {
    if n > 0 {
      U64RoundTrip(v / 256, n - 1);
      assert U64(v, n)[1..] == U64(v / 256, n - 1);
    }
  }

  /** Byte `b` of the file is in the pointer field of definition `d`. */
  predicate InField(s: Section, d: MapDef, b: int) {
    FileOffset(s, SentAddress(d)) <= b < FileOffset(s, SentAddress(d)) + KPTR_SIZE
  }

  predicate InAnyField(s: Section, defs: seq<MapDef>, n: nat, b: int)
    requires n <= |defs|
  {
    exists i :: 0 <= i < n && InField(s, defs[i], b)
  }

  /** The byte of the descriptor of `d` that belongs at `b`. */
  function FieldByte(s: Section, d: MapDef, b: int): byte
    requires InField(s, d, b) && d.fd >= 0
  {
    U64(d.fd, KPTR_SIZE)[b - FileOffset(s, SentAddress(d))]
  }

  /** The image that `fix_maps` must produce: every pointer field holds its descriptor, and
      no other byte of the file differs. */
  ghost predicate Patched(s: Section, image: seq<byte>, defs: seq<MapDef>, n: nat, out: seq<byte>)
    requires WellPlaced(s, defs, |image|) && n <= |defs|
    requires forall i :: 0 <= i < n ==> defs[i].fd >= 0
  {
    && |out| == |image|
    && (forall i, b :: 0 <= i < n && InField(s, defs[i], b) ==> out[b] == FieldByte(s, defs[i], b))
    && (forall b :: 0 <= b < |image| && !InAnyField(s, defs, n, b) ==> out[b] == image[b])
  }

  /** `fix_maps`, with the definitions in the order in which the hash table yields them. The
      file is patched in place; it stops at the first map that cannot be created. */
  method FixMaps(file: array<byte>, s: Section, defs: seq<MapDef>) returns (ok: bool, ghost n: nat)
    requires WellPlaced(s, defs, file.Length)
    modifies file
    ensures ok <==> forall i :: 0 <= i < |defs| ==> defs[i].fd >= 0
    ensures n <= |defs| && forall i :: 0 <= i < n ==> defs[i].fd >= 0
    ensures if ok then n == |defs| else n < |defs| && defs[n].fd < 0
    ensures Patched(s, old(file[..]), defs, n, file[..])
  {
    ghost var image := file[..];
    var k := 0;
    n := 0;
    while k < |defs|
      invariant n == k <= |defs|
      invariant forall i :: 0 <= i < k ==> defs[i].fd >= 0
      invariant Patched(s, image, defs, k, file[..])
    {
      var d := defs[k];
      if d.fd < 0 {
        return false, n;
      }
      StoreFd(file, s, image, defs, k);
      k := k + 1;
      n := k;
    }
    return true, n;
  }

  /** One turn of the loop: the descriptor goes to the file offset of the pointer field. */
  method StoreFd(file: array<byte>, s: Section, ghost image: seq<byte>, defs: seq<MapDef>, k: nat)
    requires WellPlaced(s, defs, file.Length) && |image| == file.Length && k < |defs|
    requires forall i :: 0 <= i <= k ==> defs[i].fd >= 0
    requires Patched(s, image, defs, k, file[..])
    modifies file
    ensures Patched(s, image, defs, k + 1, file[..])
  {
    PatchOne(s, image, defs, k, file[..]);
    StoreU64(file, defs[k].addr + KPTR - s.addr + s.off, defs[k].fd);
  }

  method StoreU64(file: array<byte>, at: nat, v: nat)
    requires at + KPTR_SIZE <= file.Length
    modifies file
    ensures file[..] == Put(old(file[..]), at, U64(v, KPTR_SIZE))
  {
    ghost var before := file[..];
    var bytes := U64(v, KPTR_SIZE);
    var i := 0;
    while i < KPTR_SIZE
      invariant i <= KPTR_SIZE
      invariant forall j :: 0 <= j < file.Length ==> file[j] == if at <= j < at + i then bytes[j - at] else before[j]
    {
      file[at + i] := bytes[i];
      i := i + 1;
    }
    assert file[..] == Put(before, at, bytes);
  }

  lemma PatchOne(s: Section, image: seq<byte>, defs: seq<MapDef>, k: nat, before: seq<byte>)
    requires WellPlaced(s, defs, |image|) && k < |defs|
    requires forall i :: 0 <= i <= k ==> defs[i].fd >= 0
    requires Patched(s, image, defs, k, before)
    ensures Patched(s, image, defs, k + 1, Put(before, FileOffset(s, SentAddress(defs[k])), U64(defs[k].fd, KPTR_SIZE)))
  {
    var out := Put(before, FileOffset(s, SentAddress(defs[k])), U64(defs[k].fd, KPTR_SIZE));
    forall i, b | 0 <= i < k + 1 && InField(s, defs[i], b) ensures out[b] == FieldByte(s, defs[i], b) {
      if i < k {
        assert !InField(s, defs[k], b);
      }
    }
    forall b | 0 <= b < |image| && !InAnyField(s, defs, k + 1, b) ensures out[b] == image[b] {
      assert !InField(s, defs[k], b) && !InAnyField(s, defs, k, b);
    }
  }

  /** The five metadata words of every definition read the same after patching. */
  lemma DefinitionsReread(s: Section, image: seq<byte>, defs: seq<MapDef>, n: nat, out: seq<byte>, i: nat)
    requires WellPlaced(s, defs, |image|) && n <= |defs| && (forall j :: 0 <= j < n ==> defs[j].fd >= 0)
    requires Patched(s, image, defs, n, out) && i < |defs|
    ensures var at := FileOffset(s, defs[i].addr); out[at..at + KPTR] == image[at..at + KPTR]
  {
    var at := FileOffset(s, defs[i].addr);
    forall b | at <= b < at + KPTR ensures out[b] == image[b] {
      assert forall j :: 0 <= j < n ==> !InField(s, defs[j], b);
    }
  }

  /** Every map was created, and its descriptor fits the field. */
  predicate AllCreated(defs: seq<MapDef>) {
    forall i :: 0 <= i < |defs| ==> 0 <= defs[i].fd < Pow256(KPTR_SIZE)
  }

  /** `out` is the file after a run of `fix_maps` over `defs` that succeeded. */
  ghost predicate Fixed(s: Section, image: seq<byte>, defs: seq<MapDef>, out: seq<byte>) {
    WellPlaced(s, defs, |image|) && AllCreated(defs) && Patched(s, image, defs, |defs|, out)
  }

  lemma FieldBytes(s: Section, image: seq<byte>, defs: seq<MapDef>, out: seq<byte>, i: nat, at: int)
    requires Fixed(s, image, defs, out) && i < |defs| && at == FileOffset(s, SentAddress(defs[i]))
    ensures 0 <= at && at + KPTR_SIZE <= |out| && out[at..at + KPTR_SIZE] == U64(defs[i].fd, KPTR_SIZE)
  {
    forall b | at <= b < at + KPTR_SIZE ensures out[b] == U64(defs[i].fd, KPTR_SIZE)[b - at] {
      assert InField(s, defs[i], b);
    }
  }

  /** Each address sent to the kernel names exactly one patched field, and there the kernel
      reads that map's descriptor. */
  lemma SentAddressFindsDescriptor(s: Section, image: seq<byte>, defs: seq<MapDef>, out: seq<byte>, i: nat)
    requires Fixed(s, image, defs, out) && i < |defs|
    ensures var at := FileOffset(s, SentAddress(defs[i]));
            && 0 <= at && at + KPTR_SIZE <= |out|
            && ReadU64(out[at..at + KPTR_SIZE]) == defs[i].fd
            && forall j :: 0 <= j < |defs| && InField(s, defs[j], at) ==> j == i
  {
    U64RoundTrip(defs[i].fd, KPTR_SIZE);
    FieldBytes(s, image, defs, out, i, FileOffset(s, SentAddress(defs[i])));
  }

  /** Digit `j` of a number in base 256, the lowest first. */
  function Digit(v: nat, j: nat): nat {
    if j == 0 then v % 256 else Digit(v / 256, j - 1)
  }

  lemma {:induction false} U64Byte(v: nat, n: nat, j: nat)
    requires j < n
    ensures U64(v, n)[j] == Digit(v, j)
  {
    if j > 0 { U64Byte(v / 256, n - 1, j - 1); }
  }

  lemma SliceAt(f: seq<byte>, from: nat, n: nat, k: nat)
    requires from + n <= |f| && k < n
    ensures f[from..from + n][k] == f[from + k]
  {
  }

  /** The patched file, byte by byte: behind the section's start, 24 bytes into the definition of
      each map, stand the eight bytes of its descriptor, the lowest first; every other byte is as
      it was. */
  lemma FileBytes(s: Section, image: seq<byte>, defs: seq<MapDef>, out: seq<byte>, i: nat, j: nat)
    requires Fixed(s, image, defs, out) && i < |defs| && j < 8
    ensures var content := out[s.off..s.off + s.size];
            content[defs[i].addr - s.addr + 24 + j] == out[s.off + (defs[i].addr - s.addr) + 24 + j]
            == Digit(defs[i].fd, j)
  {
    FieldByteAt(s, image, defs, out, i, j);
    SliceAt(out, s.off, s.size, defs[i].addr - s.addr + 24 + j);
  }

  lemma FieldByteAt(s: Section, image: seq<byte>, defs: seq<MapDef>, out: seq<byte>, i: nat, j: nat)
    requires Fixed(s, image, defs, out) && i < |defs| && j < 8
    ensures s.addr <= defs[i].addr && s.off + (defs[i].addr - s.addr) + 32 <= s.off + s.size <= |out|
    ensures out[s.off + (defs[i].addr - s.addr) + 24 + j] == Digit(defs[i].fd, j)
  {
    var at := s.off + (defs[i].addr - s.addr) + 24;
    FieldBytes(s, image, defs, out, i, at);
    U64Byte(defs[i].fd, KPTR_SIZE, j);
    SliceAt(out, at, 8, j);
  }

  lemma OtherBytes(s: Section, image: seq<byte>, defs: seq<MapDef>, out: seq<byte>, b: nat)
    requires Fixed(s, image, defs, out) && b < |image|
    requires forall i :: 0 <= i < |defs| ==> !(defs[i].addr + 24 <= b - s.off + s.addr < defs[i].addr + 32)
    ensures |out| == |image| && out[b] == image[b]
  {
    forall i | 0 <= i < |defs| ensures !InField(s, defs[i], b) {
      assert !(defs[i].addr + 24 <= b - s.off + s.addr < defs[i].addr + 32);
    }
  }

  // ------------------------------------------------------------ the order of iteration

  ghost predicate Defines(defs: seq<MapDef>, addr: nat) {
    exists i :: 0 <= i < |defs| && defs[i].addr == addr
  }

  /** Two iterations over the same table, and so over the same addresses. */
  ghost predicate SameAddresses(defs: seq<MapDef>, defs': seq<MapDef>) {
    forall a: nat :: Defines(defs, a) <==> Defines(defs', a)
  }

  /** Each map got the same descriptor in both. */
  predicate SameDescriptors(defs: seq<MapDef>, defs': seq<MapDef>) {
    forall i, j :: 0 <= i < |defs| && 0 <= j < |defs'| && defs[i].addr == defs'[j].addr ==> defs[i].fd == defs'[j].fd
  }

  lemma SameFields(s: Section, defs: seq<MapDef>, defs': seq<MapDef>, b: int)
    requires SameAddresses(defs, defs')
    ensures InAnyField(s, defs, |defs|, b) ==> InAnyField(s, defs', |defs'|, b)
  {
    if i :| 0 <= i < |defs| && InField(s, defs[i], b) {
      assert Defines(defs, defs[i].addr);
      var j :| 0 <= j < |defs'| && defs'[j].addr == defs[i].addr;
      assert InField(s, defs'[j], b);
    }
  }

  lemma SameDescriptorsSameFile(s: Section, image: seq<byte>, defs: seq<MapDef>, defs': seq<MapDef>, out: seq<byte>, out': seq<byte>)
    requires Fixed(s, image, defs, out) && Fixed(s, image, defs', out')
    requires SameAddresses(defs, defs') && SameDescriptors(defs, defs')
    ensures out == out'
  {
    forall b | 0 <= b < |image| ensures out[b] == out'[b] {
      if i :| 0 <= i < |defs| && InField(s, defs[i], b) {
        assert Defines(defs, defs[i].addr);
        var j :| 0 <= j < |defs'| && defs'[j].addr == defs[i].addr;
        assert defs'[j] == defs[i];
      } else {
        SameFields(s, defs', defs, b);
      }
    }
  }

  lemma SameFileSameDescriptors(s: Section, image: seq<byte>, defs: seq<MapDef>, defs': seq<MapDef>, out: seq<byte>)
    requires Fixed(s, image, defs, out) && Fixed(s, image, defs', out)
    ensures SameDescriptors(defs, defs')
  {
    forall i, j | 0 <= i < |defs| && 0 <= j < |defs'| && defs[i].addr == defs'[j].addr ensures defs[i].fd == defs'[j].fd {
      SentAddressFindsDescriptor(s, image, defs, out, i);
      SentAddressFindsDescriptor(s, image, defs', out, j);
    }
  }

  /** Two orders of iteration give the same file exactly when each map gets the same descriptor
      in both. */
  lemma SameFileIff(s: Section, image: seq<byte>, defs: seq<MapDef>, defs': seq<MapDef>, out: seq<byte>, out': seq<byte>)
    requires Fixed(s, image, defs, out) && Fixed(s, image, defs', out') && SameAddresses(defs, defs')
    ensures out == out' <==> SameDescriptors(defs, defs')
  {
    if out == out' { SameFileSameDescriptors(s, image, defs, defs', out); }
    if SameDescriptors(defs, defs') { SameDescriptorsSameFile(s, image, defs, defs', out, out'); }
  }

  /** The maps at `addrs`, created in this order, with the descriptors that the kernel hands out
      one after the other. */
  function CreatedInOrder(addrs: seq<nat>, fds: seq<nat>): (defs: seq<MapDef>)
    requires |addrs| == |fds|
  {
    seq(|addrs|, i requires 0 <= i < |addrs| => MapDef(addrs[i], fds[i]))
  }

  /** The maps are created during the iteration, so that the descriptors follow its order. With
      distinct descriptors handed out in sequence, two orders give the same file exactly when
      they are the same order. */
  lemma SameFileIffSameOrder(s: Section, image: seq<byte>, addrs: seq<nat>, addrs': seq<nat>, fds: seq<nat>,
                             out: seq<byte>, out': seq<byte>)
    requires |addrs| == |addrs'| == |fds| && forall i, j :: 0 <= i < j < |fds| ==> fds[i] != fds[j]
    requires Fixed(s, image, CreatedInOrder(addrs, fds), out) && Fixed(s, image, CreatedInOrder(addrs', fds), out')
    requires SameAddresses(CreatedInOrder(addrs, fds), CreatedInOrder(addrs', fds))
    ensures out == out' <==> addrs == addrs'
  {
    var defs, defs' := CreatedInOrder(addrs, fds), CreatedInOrder(addrs', fds);
    forall i, j | 0 <= i < j < |addrs| ensures addrs[i] != addrs[j] { assert defs[i].addr != defs[j].addr; }
    SameFileIff(s, image, defs, defs', out, out');
    SameDescriptorsIffSameOrder(addrs, addrs', fds);
  }

  lemma SameDescriptorsIffSameOrder(addrs: seq<nat>, addrs': seq<nat>, fds: seq<nat>)
    requires |addrs| == |addrs'| == |fds| && forall i, j :: 0 <= i < j < |fds| ==> fds[i] != fds[j]
    requires forall i, j :: 0 <= i < j < |addrs| ==> addrs[i] != addrs[j]
    requires SameAddresses(CreatedInOrder(addrs, fds), CreatedInOrder(addrs', fds))
    ensures SameDescriptors(CreatedInOrder(addrs, fds), CreatedInOrder(addrs', fds)) <==> addrs == addrs'
  {
    var defs, defs' := CreatedInOrder(addrs, fds), CreatedInOrder(addrs', fds);
    if SameDescriptors(defs, defs') {
      forall i | 0 <= i < |addrs| ensures addrs[i] == addrs'[i] {
        assert Defines(defs, defs[i].addr);
        var j :| 0 <= j < |defs'| && defs'[j].addr == defs[i].addr;
        assert fds[i] == fds[j];
      }
    }
  }

  /** For instance with two maps, of which the first created gets descriptor 3 and the other 4. */
  lemma TwoOrdersDiffer(s: Section, image: seq<byte>, a: nat, b: nat, out: seq<byte>, out': seq<byte>)
    requires Fixed(s, image, CreatedInOrder([a, b], [3, 4]), out) && Fixed(s, image, CreatedInOrder([b, a], [3, 4]), out')
    ensures out != out'
  {
    var defs, defs' := CreatedInOrder([a, b], [3, 4]), CreatedInOrder([b, a], [3, 4]);
    assert defs[0].addr == a && defs[1].addr == b && defs'[0].addr == b && defs'[1].addr == a;
    forall x: nat ensures Defines(defs, x) <==> Defines(defs', x) {
      assert Defines(defs, x) <==> x == a || x == b;
      assert Defines(defs', x) <==> x == a || x == b;
    }
    SameFileIffSameOrder(s, image, [a, b], [b, a], [3, 4], out, out');
  }
}
