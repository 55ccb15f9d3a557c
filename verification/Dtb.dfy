/**
 The device tree reader of lab2/kern/driver/dtb.c.  Memory is a sequence of bytes; the processor is
 little-endian, the tree big-endian.
 */
module Dtb {
  import opened Words

  const FDT_BEGIN_NODE: nat := 1
  const FDT_END_NODE: nat := 2
  const FDT_PROP: nat := 3
  const FDT_NOP: nat := 4
  const FDT_END: nat := 9

  // ---------------------------------------------------------------- byte order

  /** A 32-bit load. */
  function Load32(mem: seq<Byte>, p: nat): (r: nat)
    requires p + 4 <= |mem|
    ensures r < 0x1_0000_0000
  {
    var a: nat, b: nat, c: nat, d: nat := mem[p], mem[p + 1], mem[p + 2], mem[p + 3];
    a + 0x100 * b + 0x1_0000 * c + 0x100_0000 * d
  }

  /** A 64-bit load. */
  function Load64(mem: seq<Byte>, p: nat): (r: nat)
    requires p + 8 <= |mem|
    ensures r < 0x1_0000_0000_0000_0000
  {
    Load32(mem, p) + 0x1_0000_0000 * Load32(mem, p + 4)
  }

  /** The fields of the source's ors do not overlap, so that they are sums. */
  function Fdt32ToCpu(x: nat): nat {
    Or(Or(Or(x % 0x100 * 0x100_0000, x / 0x100 % 0x100 * 0x1_0000), x / 0x1_0000 % 0x100 * 0x100),
       x / 0x100_0000 % 0x100)
  }

  function Fdt64ToCpu(x: nat): nat {
    Or(Fdt32ToCpu(x % 0x1_0000_0000) * 0x1_0000_0000, Fdt32ToCpu(x / 0x1_0000_0000 % 0x1_0000_0000))
  }

  /** Four bytes, most significant first. */
  function Be32(n: nat): (r: seq<Byte>)
    ensures |r| == 4
  {
    [Low(n / 0x100_0000), Low(n / 0x1_0000), Low(n / 0x100), Low(n)]
  }

  lemma SwapValue(a: nat, b: nat, c: nat, d: nat)
    requires a < 0x100 && b < 0x100 && c < 0x100 && d < 0x100
    ensures Fdt32ToCpu(a + 0x100 * b + 0x1_0000 * c + 0x100_0000 * d) == 0x100_0000 * a + 0x1_0000 * b + 0x100 * c + d
  {
    hide Or;
    var x := a + 0x100 * b + 0x1_0000 * c + 0x100_0000 * d;
    DivIs(x, 0x100, b + 0x100 * c + 0x1_0000 * d, a);
    DivIs(x, 0x1_0000, c + 0x100 * d, a + 0x100 * b);
    DivIs(x, 0x100_0000, d, a + 0x100 * b + 0x1_0000 * c);
    Bytes4(a, b, c, d);
    assert Pow2(8) == 0x100;
    assert Pow2(16) == 0x1_0000 by {
      Pow2Sum(8, 8);
    }
    assert Pow2(24) == 0x100_0000 by {
      Pow2Sum(8, 16);
    }
    OrBelow(a, 24, b * 0x1_0000);
    OrBelow(0x100 * a + b, 16, c * 0x100);
    OrBelow(0x1_0000 * a + 0x100 * b + c, 8, d);
  }

  lemma Bytes4(a: nat, b: nat, c: nat, d: nat)
    requires a < 0x100 && b < 0x100 && c < 0x100 && d < 0x100
    ensures (a + 0x100 * b + 0x1_0000 * c + 0x100_0000 * d) % 0x100 == a
    ensures (b + 0x100 * c + 0x1_0000 * d) % 0x100 == b && (c + 0x100 * d) % 0x100 == c && d % 0x100 == d
  {
  }

  /** Swapping the bytes of a load gives the big-endian number that is stored there. */
  lemma SwappedLoad(mem: seq<Byte>, p: nat, n: nat)
    requires p + 4 <= |mem| && n < 0x1_0000_0000 && mem[p..p + 4] == Be32(n)
    ensures Fdt32ToCpu(Load32(mem, p)) == n
    ensures n ==
      0x100_0000 * mem[p] as int + 0x1_0000 * mem[p + 1] as int + 0x100 * mem[p + 2] as int + mem[p + 3] as int
  {
    hide Fdt32ToCpu;
    var t := mem[p..p + 4];
    assert t[0] == mem[p] && t[1] == mem[p + 1] && t[2] == mem[p + 2] && t[3] == mem[p + 3];
    SwapValue(t[0], t[1], t[2], t[3]);
    Digits256(n);
  }

  lemma Digits256(n: nat)
    requires n < 0x1_0000_0000
    ensures n == 0x100_0000 * (n / 0x100_0000 % 0x100) + 0x1_0000 * (n / 0x1_0000 % 0x100) +
      0x100 * (n / 0x100 % 0x100) + n % 0x100
  {
    var h, w := n / 0x100, n / 0x1_0000;
    Euclid(n, 0x100);
    Euclid(h, 0x100);
    Euclid(w, 0x100);
    assert w == h / 0x100 && n / 0x100_0000 == w / 0x100 < 0x100;
  }

  /** Swapping twice is the identity. */
  lemma SwapTwice(x: nat)
    requires x < 0x1_0000_0000
    ensures Fdt32ToCpu(x) < 0x1_0000_0000 && Fdt32ToCpu(Fdt32ToCpu(x)) == x
  {
    hide Fdt32ToCpu;
    Digits256(x);
    var a, b, c, d := x % 0x100, x / 0x100 % 0x100, x / 0x1_0000 % 0x100, x / 0x100_0000 % 0x100;
    SwapValue(a, b, c, d);
    SwapValue(d, c, b, a);
  }

  /** The 64-bit swap exchanges the halves and swaps each. */
  lemma SwappedLoad64(mem: seq<Byte>, p: nat, hi: nat, lo: nat)
    requires p + 8 <= |mem| && hi < 0x1_0000_0000 && lo < 0x1_0000_0000 && mem[p..p + 4] == Be32(hi)
    requires mem[p + 4..p + 8] == Be32(lo)
    ensures Fdt64ToCpu(Load64(mem, p)) == 0x1_0000_0000 * hi + lo
  {
    hide Fdt32ToCpu, Load32, Or;
    SwappedLoad(mem, p, hi);
    SwappedLoad(mem, p + 4, lo);
    var a, b := Load32(mem, p), Load32(mem, p + 4);
    DivIs(a + 0x1_0000_0000 * b, 0x1_0000_0000, b, a);
    Halves(a, b);
    assert Pow2(32) == 0x1_0000_0000 by {
      assert Pow2(8) == 0x100;
      Pow2Sum(8, 8);
      Pow2Sum(16, 16);
    }
    OrBelow(hi, 32, lo);
  }

  lemma Halves(a: nat, b: nat)
    requires a < 0x1_0000_0000 && b < 0x1_0000_0000
    ensures (a + 0x1_0000_0000 * b) % 0x1_0000_0000 == a && b % 0x1_0000_0000 == b
  {
  }

  // ---------------------------------------------------------------- the structure block

  /** A token of section 5.4.1 of the Devicetree Specification. */
  datatype Token = BeginNode(name: seq<Byte>) | EndNode | Prop(nameoff: nat, data: seq<Byte>) | Nop | End

  /** Zeros up to the next multiple of four. */
  function Pad(n: nat): (r: seq<Byte>)
    ensures (n + |r|) % 4 == 0 && |r| < 4
  {
    seq((4 - n % 4) % 4, _ => 0 as Byte)
  }

  function Encode(t: Token): (r: seq<Byte>)
    ensures |r| >= 4
  {
    match t
    case BeginNode(name) => [0, 0, 0, 1] + name + [0] + Pad(|name| + 1)
    case EndNode => [0, 0, 0, 2]
    case Prop(nameoff, data) => [0, 0, 0, 3] + Be32(|data|) + Be32(nameoff) + data + Pad(|data|)
    case Nop => [0, 0, 0, 4]
    case End => [0, 0, 0, 9]
  }

  lemma EncodeIsAligned(t: Token)
    ensures |Encode(t)| % 4 == 0
  {
  }

  ghost predicate TokenOk(t: Token) {
    match t
    case BeginNode(name) => 0 !in name
    case Prop(nameoff, data) => nameoff < 0x1_0000_0000 && |data| < 0x1_0000_0000
    case _ => true
  }

  /** The tokens, up to the first End, stand in memory from p on. */
  ghost predicate EncodedAt(mem: seq<Byte>, p: nat, tokens: seq<Token>)
    decreases |tokens|
  {
    && tokens != [] && TokenOk(tokens[0])
    && p + |Encode(tokens[0])| <= |mem| && mem[p..p + |Encode(tokens[0])|] == Encode(tokens[0])
    && (!tokens[0].End? ==> EncodedAt(mem, p + |Encode(tokens[0])|, tokens[1..]))
  }

  const MEMORY: seq<Byte> := [109, 101, 109, 111, 114, 121]
  const REG: seq<Byte> := [114, 101, 103, 0]

  predicate IsMemory(name: seq<Byte>) {
    |name| >= 6 && name[..6] == MEMORY
  }

  /** strcmp with "reg" says equal. */
  predicate IsReg(mem: seq<Byte>, p: nat) {
    p + 4 <= |mem| && mem[p..p + 4] == REG
  }

  /** The 64-bit big-endian number at the head of property data. */
  function Cell64(data: seq<Byte>, k: nat): nat
    requires |data| >= k + 8
  {
    0x1_0000_0000 * Number32(data, k) + Number32(data, k + 4)
  }

  function Number32(data: seq<Byte>, k: nat): (r: nat)
    requires |data| >= k + 4
    ensures r < 0x1_0000_0000
  {
    var a: nat, b: nat, c: nat, d: nat := data[k], data[k + 1], data[k + 2], data[k + 3];
    0x100_0000 * a + 0x1_0000 * b + 0x100 * c + d
  }

  lemma Number32Bytes(data: seq<Byte>, k: nat)
    requires |data| >= k + 4
    ensures data[k..k + 4] == Be32(Number32(data, k))
  {
    var a: nat, b: nat, c: nat, d: nat := data[k], data[k + 1], data[k + 2], data[k + 3];
    var n := Number32(data, k);
    DivIs(n, 0x100, c + 0x100 * b + 0x1_0000 * a, d);
    DivIs(n, 0x1_0000, b + 0x100 * a, d + 0x100 * c);
    DivIs(n, 0x100_0000, a, d + 0x100 * c + 0x1_0000 * b);
    Bytes4(d, c, b, a);
    Bytes4(d, c, b, a);
  }

  /** A `reg` property that is long enough, and what its first two cells say. */
  function RegOf(t: Token, mem: seq<Byte>, strings: nat): Option<(nat, nat)> {
    if t.Prop? && IsReg(mem, strings + t.nameoff) && |t.data| >= 16 then Some((Cell64(t.data, 0), Cell64(t.data, 8)))
    else None
  }

  /** What the walk over the tokens finds, when it starts inside a memory node or not. */
  function Scan(tokens: seq<Token>, inMemory: bool, mem: seq<Byte>, strings: nat): Option<(nat, nat)>
    decreases |tokens|
  {
    if tokens == [] || tokens[0].End? then None
    else if tokens[0].BeginNode? then Scan(tokens[1..], inMemory || IsMemory(tokens[0].name), mem, strings)
    else if tokens[0].EndNode? then Scan(tokens[1..], false, mem, strings)
    else if tokens[0].Prop? && inMemory && RegOf(tokens[0], mem, strings).Some? then RegOf(tokens[0], mem, strings)
    else Scan(tokens[1..], inMemory, mem, strings)
  }

  // ---------------------------------------------------------------- which property is read, and as what

  /** Token k is inside a node whose name begins with "memory": behind its beginning, before the next end of a node. */
  ghost predicate InMemoryNode(tokens: seq<Token>, k: nat) {
    exists i :: MemoryFrom(tokens, i, k)
  }

  ghost predicate MemoryFrom(tokens: seq<Token>, i: nat, k: nat) {
    && i < k <= |tokens| && tokens[i].BeginNode?
    && |tokens[i].name| >= 6 && tokens[i].name[..6] == [109, 101, 109, 111, 114, 121]
    && forall j :: i < j < k ==> !tokens[j].EndNode?
  }

  /** Token k is a property "reg" of at least 16 bytes there. */
  ghost predicate RegAt(tokens: seq<Token>, k: nat, mem: seq<Byte>, strings: nat) {
    && k < |tokens| && tokens[k].Prop? && InMemoryNode(tokens, k) && |tokens[k].data| >= 16
    && var q := strings + tokens[k].nameoff;
    q + 4 <= |mem| && mem[q..q + 4] == [114, 101, 103, 0]
  }

  /** And it is the first one. */
  ghost predicate FirstRegAt(tokens: seq<Token>, k: nat, mem: seq<Byte>, strings: nat) {
    && RegAt(tokens, k, mem, strings)
    && forall j :: 0 <= j < k ==> !tokens[j].End? && !RegAt(tokens, j, mem, strings)
  }

  /** The first eight bytes are `base`, the next eight `size`, the highest byte first. */
  ghost predicate Cells(data: seq<Byte>, base: nat, size: nat) {
    && |data| >= 16
    && base == 0x100_0000_0000_0000 * data[0] as int + 0x1_0000_0000_0000 * data[1] as int
               + 0x100_0000_0000 * data[2] as int + 0x1_0000_0000 * data[3] as int
               + 0x100_0000 * data[4] as int + 0x1_0000 * data[5] as int + 0x100 * data[6] as int + data[7] as int
    && size == 0x100_0000_0000_0000 * data[8] as int + 0x1_0000_0000_0000 * data[9] as int
               + 0x100_0000_0000 * data[10] as int + 0x1_0000_0000 * data[11] as int
               + 0x100_0000 * data[12] as int + 0x1_0000 * data[13] as int + 0x100 * data[14] as int + data[15] as int
  }

  /** The pair r is base and size of the first such property, and there is none if there is no such property. */
  ghost predicate IsFirstReg(tokens: seq<Token>, mem: seq<Byte>, strings: nat, r: Option<(nat, nat)>) {
    && (forall k: nat :: FirstRegAt(tokens, k, mem, strings) ==>
          r.Some? && Cells(tokens[k].data, r.value.0, r.value.1))
    && (r.Some? ==> exists k: nat :: FirstRegAt(tokens, k, mem, strings))
  }

  lemma CellsAre(t: Token, mem: seq<Byte>, strings: nat)
    requires RegOf(t, mem, strings).Some?
    ensures t.Prop? && Cells(t.data, RegOf(t, mem, strings).value.0, RegOf(t, mem, strings).value.1)
  {
  }

  lemma InMemoryNext(tokens: seq<Token>, i: nat)
    requires i < |tokens|
    ensures InMemoryNode(tokens, i + 1) <==>
      if tokens[i].BeginNode? then InMemoryNode(tokens, i) || IsMemory(tokens[i].name)
      else !tokens[i].EndNode? && InMemoryNode(tokens, i)
  {
    if tokens[i].BeginNode? && IsMemory(tokens[i].name) {
      assert MemoryFrom(tokens, i, i + 1);
    }
    if b: nat :| MemoryFrom(tokens, b, i) {
      assert !tokens[i].EndNode? ==> MemoryFrom(tokens, b, i + 1);
    }
    var next := i + 1;
    if b: nat :| MemoryFrom(tokens, b, next) {
      assert b < i ==> MemoryFrom(tokens, b, i);
    }
  }

  /** The walk finds the first such property, if there is one. */
  lemma {:induction false} ScanFinds(tokens: seq<Token>, i: nat, mem: seq<Byte>, strings: nat)
    requires i <= |tokens| && forall j :: 0 <= j < i ==> !tokens[j].End? && !RegAt(tokens, j, mem, strings)
    ensures IsFirstReg(tokens, mem, strings, Scan(tokens[i..], InMemoryNode(tokens, i), mem, strings))
    decreases |tokens| - i
  {
    hide InMemoryNode, RegOf, Cells;
    if i < |tokens| && !tokens[i].End? {
      InMemoryNext(tokens, i);
      RegIs(tokens, i, mem, strings);
      assert tokens[i..][0] == tokens[i] && tokens[i..][1..] == tokens[i + 1..];
      if RegAt(tokens, i, mem, strings) {
        CellsAre(tokens[i], mem, strings);
        assert FirstRegAt(tokens, i, mem, strings);
      } else {
        ScanFinds(tokens, i + 1, mem, strings);
      }
    }
  }

  lemma RegIs(tokens: seq<Token>, i: nat, mem: seq<Byte>, strings: nat)
    requires i < |tokens|
    ensures RegAt(tokens, i, mem, strings) <==>
      tokens[i].Prop? && InMemoryNode(tokens, i) && RegOf(tokens[i], mem, strings).Some?
  {
    hide InMemoryNode;
  }

  lemma NotInMemoryAtFirst(tokens: seq<Token>)
    ensures !InMemoryNode(tokens, 0) && tokens[0..] == tokens
  {
  }

  // ---------------------------------------------------------------- extract_memory_info

  /** The number of the token. */
  function Tag(t: Token): (r: nat)
    ensures r < 0x1_0000_0000
  {
    match t
    case BeginNode(_) => FDT_BEGIN_NODE
    case EndNode => FDT_END_NODE
    case Prop(_, _) => FDT_PROP
    case Nop => FDT_NOP
    case End => FDT_END
  }

  lemma Within(mem: seq<Byte>, p: nat, whole: seq<Byte>, i: nat, j: nat)
    requires p + |whole| <= |mem| && mem[p..p + |whole|] == whole && i <= j <= |whole|
    ensures mem[p + i..p + j] == whole[i..j]
  {
    forall k | i <= k < j
      ensures mem[p + k] == whole[k]
    {
      assert mem[p + k] == mem[p..p + |whole|][k];
    }
  }

  lemma HeadAt(mem: seq<Byte>, p: nat, tokens: seq<Token>)
    requires EncodedAt(mem, p, tokens)
    ensures tokens != [] && TokenOk(tokens[0])
    ensures p + |Encode(tokens[0])| <= |mem| && mem[p..p + |Encode(tokens[0])|] == Encode(tokens[0])
  {
    hide Encode, TokenOk;
  }

  lemma TagAt(mem: seq<Byte>, p: nat, tokens: seq<Token>)
    requires EncodedAt(mem, p, tokens)
    ensures p + 4 <= |mem| && Fdt32ToCpu(Load32(mem, p)) == Tag(tokens[0])
    ensures !tokens[0].BeginNode? && !tokens[0].Prop? ==> |Encode(tokens[0])| == 4
    ensures !tokens[0].End? ==> EncodedAt(mem, p + |Encode(tokens[0])|, tokens[1..])
  {
    hide Fdt32ToCpu, Be32;
    var e := Encode(tokens[0]);
    Within(mem, p, e, 0, 4);
    TagBytes(tokens[0]);
    SwappedLoad(mem, p, Tag(tokens[0]));
  }

  lemma TagBytes(t: Token)
    ensures Encode(t)[0..4] == Be32(Tag(t))
  {
    hide Pad;
    var tag := Be32(Tag(t));
    match t
    case BeginNode(name) => assert Encode(t) == tag + (name + [0] + Pad(|name| + 1));
    case Prop(nameoff, data) => assert Encode(t) == tag + (Be32(|data|) + Be32(nameoff) + data + Pad(|data|));
    case _ => assert Encode(t) == tag;
  }

  /** Rounding up to a multiple of four as the source does, and as padding does. */
  lemma RoundUp(p: nat, n: nat)
    requires p % 4 == 0
    ensures (p + n + 3) / 4 * 4 == p + n + |Pad(n)|
  {
  }

  /** A node's name stands behind the tag and ends at the first zero; behind it the next token starts. */
  lemma NameAt(mem: seq<Byte>, p: nat, tokens: seq<Token>)
    requires EncodedAt(mem, p, tokens) && p % 4 == 0 && tokens[0].BeginNode?
    ensures var n := |tokens[0].name|;
      && p + 4 + n < |mem| && mem[p + 4..p + 4 + n] == tokens[0].name && mem[p + 4 + n] == 0
      && 0 !in mem[p + 4..p + 4 + n]
      && (p + 4 + n + 4) / 4 * 4 == p + |Encode(tokens[0])|
  {
    hide Be32, Pad, EncodedAt, Encode;
    HeadAt(mem, p, tokens);
    var e, name := Encode(tokens[0]), tokens[0].name;
    NameBytes(name);
    assert tokens[0] == BeginNode(name);
    Within(mem, p, e, 4, 4 + |name|);
    Within(mem, p, e, 4 + |name|, 5 + |name|);
    assert mem[p + 4 + |name|] == mem[p + 4 + |name|..p + 5 + |name|][0];
    RoundUp(p + 4, |name| + 1);
  }

  lemma NameBytes(name: seq<Byte>)
    ensures var e := Encode(BeginNode(name));
      |e| == 5 + |name| + |Pad(|name| + 1)| && e[4..4 + |name|] == name && e[4 + |name|..5 + |name|] == [0]
  {
    hide Be32, Pad;
  }

  /** A property's length, name and data stand behind the tag. */
  lemma PropAt(mem: seq<Byte>, p: nat, tokens: seq<Token>)
    requires EncodedAt(mem, p, tokens) && p % 4 == 0 && tokens[0].Prop?
    ensures var data := tokens[0].data;
      && p + 12 + |data| <= |mem| && mem[p + 12..p + 12 + |data|] == data
      && Fdt32ToCpu(Load32(mem, p + 4)) == |data| && Fdt32ToCpu(Load32(mem, p + 8)) == tokens[0].nameoff
      && (p + 12 + |data| + 3) / 4 * 4 == p + |Encode(tokens[0])|
  {
    hide Be32, Pad, Fdt32ToCpu, EncodedAt, Encode;
    HeadAt(mem, p, tokens);
    assert tokens[0] == Prop(tokens[0].nameoff, tokens[0].data);
    var e, data := Encode(tokens[0]), tokens[0].data;
    PropBytes(tokens[0].nameoff, data);
    Within(mem, p, e, 4, 8);
    Within(mem, p, e, 8, 12);
    Within(mem, p, e, 12, 12 + |data|);
    SwappedLoad(mem, p + 4, |data|);
    SwappedLoad(mem, p + 8, tokens[0].nameoff);
    RoundUp(p + 12, |data|);
  }

  lemma PropBytes(nameoff: nat, data: seq<Byte>)
    ensures var e := Encode(Prop(nameoff, data));
      |e| == 12 + |data| + |Pad(|data|)| && e[4..8] == Be32(|data|) && e[8..12] == Be32(nameoff)
      && e[12..12 + |data|] == data
  {
    hide Be32, Pad;
  }

  /** The two 64-bit loads give the two cells. */
  lemma CellsAt(mem: seq<Byte>, q: nat, data: seq<Byte>)
    requires q + |data| <= |mem| && mem[q..q + |data|] == data && |data| >= 16
    ensures Fdt64ToCpu(Load64(mem, q)) == Cell64(data, 0) && Fdt64ToCpu(Load64(mem, q + 8)) == Cell64(data, 8)
  {
    hide Be32, Fdt64ToCpu, Load64, Number32;
    CellAt(mem, q, data, 0);
    CellAt(mem, q, data, 8);
  }

  lemma CellAt(mem: seq<Byte>, q: nat, data: seq<Byte>, k: nat)
    requires q + |data| <= |mem| && mem[q..q + |data|] == data && |data| >= k + 8
    ensures Fdt64ToCpu(Load64(mem, q + k)) == Cell64(data, k)
  {
    hide Be32, Fdt64ToCpu, Load64, Number32;
    Number32Bytes(data, k);
    Number32Bytes(data, k + 4);
    Within(mem, q, data, k, k + 4);
    Within(mem, q, data, k + 4, k + 8);
    SwappedLoad64(mem, q + k, Number32(data, k), Number32(data, k + 4));
  }

  method StrLen(mem: seq<Byte>, p: nat, ghost n: nat) returns (len: nat)
    requires p + n < |mem| && mem[p + n] == 0 && 0 !in mem[p..p + n]
    ensures len == n
  {
    len := 0;
    while mem[p + len] != 0
      invariant len <= n
      decreases n - len
    {
      assert len < n ==> mem[p + len] == mem[p..p + n][len];
      len := len + 1;
    }
  }

  /**
   extract_memory_info on a structure block that spells `tokens`: the pointer moves from token to token to the end,
   and the result is what the walk over the tokens finds, base and size of the first `reg` in a memory node.
   */
  method ExtractMemoryInfo(mem: seq<Byte>, structs: nat, strings: nat, ghost tokens: seq<Token>)
    returns (r: Option<(nat, nat)>)
    requires structs % 4 == 0 && EncodedAt(mem, structs, tokens)
    ensures r == Scan(tokens, false, mem, strings)
    ensures IsFirstReg(tokens, mem, strings, r)
  {
    hide IsFirstReg, InMemoryNode, Encode, Fdt32ToCpu, Fdt64ToCpu, Load32, Load64, Cell64, IsReg, EncodedAt, IsMemory,
      Scan;
    var p: nat, inMemory := structs, false;
    ghost var rest := tokens;
    NotInMemoryAtFirst(tokens);
    ScanFinds(tokens, 0, mem, strings);
    Nonempty(mem, p, rest);
    while true
      invariant rest != [] && EncodedAt(mem, p, rest) && p % 4 == 0
      invariant Scan(rest, inMemory, mem, strings) == Scan(tokens, false, mem, strings)
      decreases |rest|
    {
      TagAt(mem, p, rest);
      OneToken(mem, p, rest, inMemory, strings);
      ghost var start, next := p, p + |Encode(rest[0])|;
      var token := Fdt32ToCpu(Load32(mem, p));
      p := p + 4;
      if token == FDT_BEGIN_NODE {
        NameAt(mem, start, rest);
        var len := StrLen(mem, p, |rest[0].name|);
        if len >= 6 && mem[p..p + 6] == MEMORY {
          inMemory := true;
        }
        SamePrefix(mem, p, rest[0].name);
        p := (p + len + 4) / 4 * 4;
        assert p == next;
      } else if token == FDT_END_NODE {
        inMemory := false;
        assert p == next;
      } else if token == FDT_PROP {
        PropAt(mem, start, rest);
        var len := Fdt32ToCpu(Load32(mem, p));
        var nameoff := Fdt32ToCpu(Load32(mem, p + 4));
        p := p + 8;
        if inMemory && IsReg(mem, strings + nameoff) && len >= 16 {
          CellsAt(mem, p, rest[0].data);
          return Some((Fdt64ToCpu(Load64(mem, p)), Fdt64ToCpu(Load64(mem, p + 8))));
        }
        p := (p + len + 3) / 4 * 4;
        assert p == next;
      } else if token != FDT_NOP {
        return None;
      }
      rest := rest[1..];
    }
  }

  /** One token of the walk. */
  lemma OneToken(mem: seq<Byte>, p: nat, tokens: seq<Token>, inMemory: bool, strings: nat)
    requires EncodedAt(mem, p, tokens) && p % 4 == 0
    ensures tokens != [] && (tokens[0].End? ==> Scan(tokens, inMemory, mem, strings) == None)
    ensures !tokens[0].End? ==>
      var rest, next := tokens[1..], p + |Encode(tokens[0])|;
      && EncodedAt(mem, next, rest) && rest != [] && next % 4 == 0
      && Scan(tokens, inMemory, mem, strings) ==
        if tokens[0].Prop? && inMemory && RegOf(tokens[0], mem, strings).Some? then RegOf(tokens[0], mem, strings)
        else Scan(rest, if tokens[0].BeginNode? then inMemory || IsMemory(tokens[0].name)
                        else inMemory && !tokens[0].EndNode?, mem, strings)
  {
    hide Encode, IsMemory, RegOf, TokenOk;
    EncodeIsAligned(tokens[0]);
    if !tokens[0].End? {
      Nonempty(mem, p + |Encode(tokens[0])|, tokens[1..]);
    }
  }

  lemma Nonempty(mem: seq<Byte>, p: nat, tokens: seq<Token>)
    requires EncodedAt(mem, p, tokens)
    ensures tokens != []
  {
  }

  lemma SamePrefix(mem: seq<Byte>, p: nat, name: seq<Byte>)
    requires p + |name| <= |mem| && mem[p..p + |name|] == name
    ensures IsMemory(name) <==> |name| >= 6 && mem[p..p + 6] == MEMORY
  {
    if |name| >= 6 {
      assert mem[p..p + 6] == name[..6];
    }
  }

  // ---------------------------------------------------------------- trees

  /** A node of section 5.4.2 of the Devicetree Specification: its properties come before its children. */
  datatype Node = Node(name: seq<Byte>, props: seq<Token>, children: seq<Node>)

  ghost predicate NodeOk(n: Node) {
    && (forall i :: 0 <= i < |n.props| ==> n.props[i].Prop? || n.props[i].Nop?)
    && (forall i :: 0 <= i < |n.children| ==> NodeOk(n.children[i]))
  }

  ghost function Tokens(n: Node): seq<Token> {
    [BeginNode(n.name)] + n.props + TokensAll(n.children) + [EndNode]
  }

  ghost function TokensAll(nodes: seq<Node>): seq<Token> {
    if nodes == [] then [] else Tokens(nodes[0]) + TokensAll(nodes[1..])
  }

  /** The first long enough `reg` among the properties. */
  ghost function OwnReg(props: seq<Token>, mem: seq<Byte>, strings: nat): Option<(nat, nat)> {
    if props == [] then None
    else if RegOf(props[0], mem, strings).Some? then RegOf(props[0], mem, strings)
    else OwnReg(props[1..], mem, strings)
  }

  function OrElse(a: Option<(nat, nat)>, b: Option<(nat, nat)>): Option<(nat, nat)> {
    if a.Some? then a else b
  }

  /** What one looks for: the first `reg` of a memory node, in the order of the tree. */
  ghost function FirstReg(n: Node, mem: seq<Byte>, strings: nat): Option<(nat, nat)> {
    OrElse(if IsMemory(n.name) then OwnReg(n.props, mem, strings) else None, FirstRegAll(n.children, mem, strings))
  }

  ghost function FirstRegAll(nodes: seq<Node>, mem: seq<Byte>, strings: nat): Option<(nat, nat)> {
    if nodes == [] then None else OrElse(FirstReg(nodes[0], mem, strings), FirstRegAll(nodes[1..], mem, strings))
  }

  /** What the walk finds: below a memory node the first child, its first child and so on count as memory nodes too. */
  ghost function Found(n: Node, inMemory: bool, mem: seq<Byte>, strings: nat): Option<(nat, nat)> {
    var inside := inMemory || IsMemory(n.name);
    OrElse(if inside then OwnReg(n.props, mem, strings) else None, FoundAll(n.children, inside, mem, strings))
  }

  ghost function FoundAll(nodes: seq<Node>, inMemory: bool, mem: seq<Byte>, strings: nat): Option<(nat, nat)> {
    if nodes == [] then None
    else OrElse(Found(nodes[0], inMemory, mem, strings), FoundAll(nodes[1..], false, mem, strings))
  }

  lemma {:induction false} ScanProps(props: seq<Token>, rest: seq<Token>, inMemory: bool, mem: seq<Byte>, strings: nat)
    requires forall i :: 0 <= i < |props| ==> props[i].Prop? || props[i].Nop?
    ensures Scan(props + rest, inMemory, mem, strings)
      == OrElse(if inMemory then OwnReg(props, mem, strings) else None, Scan(rest, inMemory, mem, strings))
    decreases |props|
  {
    if props == [] {
      assert props + rest == rest;
    } else {
      ScanProps(props[1..], rest, inMemory, mem, strings);
      assert (props + rest)[1..] == props[1..] + rest && (props + rest)[0] == props[0];
    }
  }

  /** The walk over a node, then over the rest. */
  lemma {:induction false} ScanNode(n: Node, rest: seq<Token>, inMemory: bool, mem: seq<Byte>, strings: nat)
    requires NodeOk(n)
    ensures Scan(Tokens(n) + rest, inMemory, mem, strings) ==
      OrElse(Found(n, inMemory, mem, strings), Scan(rest, false, mem, strings))
    decreases n, 0
  {
    hide OwnReg, RegOf;
    var inside := inMemory || IsMemory(n.name);
    var behind := [EndNode] + rest;
    var body := TokensAll(n.children) + behind;
    assert Tokens(n) + rest == [BeginNode(n.name)] + (n.props + body);
    ScanStep(BeginNode(n.name), n.props + body, inMemory, mem, strings);
    ScanProps(n.props, body, inside, mem, strings);
    ScanNodes(n.children, n, behind, inside, mem, strings);
    ScanStep(EndNode, rest, inside, mem, strings);
    ScanStep(EndNode, rest, false, mem, strings);
  }

  lemma ScanStep(t: Token, rest: seq<Token>, inMemory: bool, mem: seq<Byte>, strings: nat)
    ensures t.BeginNode? ==>
      Scan([t] + rest, inMemory, mem, strings) == Scan(rest, inMemory || IsMemory(t.name), mem, strings)
    ensures t.EndNode? ==> Scan([t] + rest, inMemory, mem, strings) == Scan(rest, false, mem, strings)
    ensures t.End? ==> Scan([t] + rest, inMemory, mem, strings) == None
  {
    assert ([t] + rest)[1..] == rest;
  }

  lemma {:induction false} ScanNodes(nodes: seq<Node>, parent: Node, rest: seq<Token>, inMemory: bool, mem: seq<Byte>,
      strings: nat)
    requires |nodes| <= |parent.children| && nodes == parent.children[|parent.children| - |nodes|..] && NodeOk(parent)
    requires rest != [] && rest[0].EndNode?
    ensures Scan(TokensAll(nodes) + rest, inMemory, mem, strings) ==
      OrElse(FoundAll(nodes, inMemory, mem, strings), Scan(rest, false, mem, strings))
    decreases parent, 0, |nodes|
  {
    hide OwnReg, RegOf;
    if nodes == [] {
      assert TokensAll(nodes) + rest == rest;
      ScanStep(EndNode, rest[1..], inMemory, mem, strings);
      ScanStep(EndNode, rest[1..], false, mem, strings);
      assert rest == [EndNode] + rest[1..];
    } else {
      assert nodes[0] == parent.children[|parent.children| - |nodes|];
      assert TokensAll(nodes) + rest == Tokens(nodes[0]) + (TokensAll(nodes[1..]) + rest);
      ScanNode(nodes[0], TokensAll(nodes[1..]) + rest, inMemory, mem, strings);
      ScanNodes(nodes[1..], parent, rest, false, mem, strings);
    }
  }

  /** On a whole tree, the walk finds what Found says. */
  lemma ScanTree(root: Node, mem: seq<Byte>, strings: nat)
    requires NodeOk(root)
    ensures Scan(Tokens(root) + [End], false, mem, strings) == Found(root, false, mem, strings)
  {
    hide OwnReg, RegOf;
    ScanNode(root, [End], false, mem, strings);
    assert [End] == [End] + [];
    ScanStep(End, [], false, mem, strings);
  }

  /** The `reg` that the walk takes from a node that is no memory node, if that is where it ends. */
  ghost function Stray(n: Node, inMemory: bool, mem: seq<Byte>, strings: nat): Option<(nat, nat)> {
    if IsMemory(n.name) then
      if OwnReg(n.props, mem, strings).Some? then None else StrayAll(n.children, true, mem, strings)
    else if inMemory && OwnReg(n.props, mem, strings).Some? then OwnReg(n.props, mem, strings)
    else StrayAll(n.children, inMemory, mem, strings)
  }

  ghost function StrayAll(nodes: seq<Node>, inMemory: bool, mem: seq<Byte>, strings: nat): Option<(nat, nat)> {
    if nodes == [] then None
    else if Found(nodes[0], inMemory, mem, strings).Some? then Stray(nodes[0], inMemory, mem, strings)
    else StrayAll(nodes[1..], false, mem, strings)
  }

  /** Either the walk ends astray, or it finds the first `reg` of a memory node. */
  lemma {:induction false} StrayOrFirst(n: Node, inMemory: bool, mem: seq<Byte>, strings: nat)
    ensures Stray(n, inMemory, mem, strings).Some? ==>
      Found(n, inMemory, mem, strings) == Stray(n, inMemory, mem, strings)
    ensures Stray(n, inMemory, mem, strings).None? ==> Found(n, inMemory, mem, strings) == FirstReg(n, mem, strings)
    decreases n, 0
  {
    hide OwnReg;
    StrayOrFirstAll(n.children, n, inMemory || IsMemory(n.name), mem, strings);
  }

  lemma {:induction false} StrayOrFirstAll(nodes: seq<Node>, parent: Node, inMemory: bool, mem: seq<Byte>, strings: nat)
    requires |nodes| <= |parent.children| && nodes == parent.children[|parent.children| - |nodes|..]
    ensures StrayAll(nodes, inMemory, mem, strings).Some? ==>
      FoundAll(nodes, inMemory, mem, strings) == StrayAll(nodes, inMemory, mem, strings)
    ensures StrayAll(nodes, inMemory, mem, strings).None? ==>
      FoundAll(nodes, inMemory, mem, strings) == FirstRegAll(nodes, mem, strings)
    decreases parent, 0, |nodes|
  {
    if nodes != [] {
      assert nodes[0] == parent.children[|parent.children| - |nodes|];
      StrayOrFirst(nodes[0], inMemory, mem, strings);
      StrayOrFirstAll(nodes[1..], parent, false, mem, strings);
    }
  }

  /** The walk finds what one looks for exactly if it does not end astray, or the stray `reg` says the same. */
  lemma FoundIsFirst(n: Node, mem: seq<Byte>, strings: nat)
    ensures Found(n, false, mem, strings) == FirstReg(n, mem, strings)
      <==> Stray(n, false, mem, strings).None? || Stray(n, false, mem, strings) == FirstReg(n, mem, strings)
  {
    hide Stray, Found, FirstReg;
    StrayOrFirst(n, false, mem, strings);
  }

  /** Memory nodes without a `reg` of their own have no children. */
  ghost predicate MemoryIsLeaf(n: Node, mem: seq<Byte>, strings: nat) {
    && (IsMemory(n.name) ==> n.children == [] || OwnReg(n.props, mem, strings).Some?)
    && forall i :: 0 <= i < |n.children| ==> MemoryIsLeaf(n.children[i], mem, strings)
  }

  /** Then the walk cannot go astray. */
  lemma {:induction false} LeavesDoNotStray(n: Node, mem: seq<Byte>, strings: nat)
    requires MemoryIsLeaf(n, mem, strings)
    ensures Stray(n, false, mem, strings) == None && Found(n, false, mem, strings) == FirstReg(n, mem, strings)
    decreases n, 0
  {
    hide OwnReg;
    LeavesDoNotStrayAll(n.children, n, mem, strings);
    StrayOrFirst(n, false, mem, strings);
  }

  lemma {:induction false} LeavesDoNotStrayAll(nodes: seq<Node>, parent: Node, mem: seq<Byte>, strings: nat)
    requires |nodes| <= |parent.children| && nodes == parent.children[|parent.children| - |nodes|..]
    requires MemoryIsLeaf(parent, mem, strings)
    ensures StrayAll(nodes, false, mem, strings) == None
    decreases parent, 0, |nodes|
  {
    if nodes != [] {
      assert nodes[0] == parent.children[|parent.children| - |nodes|];
      LeavesDoNotStray(nodes[0], mem, strings);
      LeavesDoNotStrayAll(nodes[1..], parent, mem, strings);
    }
  }

  /** A memory node without `reg` lends its name to its first child: the child's `reg` is taken for the memory's. */
  lemma ChildTakenForMemory(child: Node, mem: seq<Byte>, strings: nat)
    requires !IsMemory(child.name) && child.children == [] && OwnReg(child.props, mem, strings).Some?
    ensures var n := Node(MEMORY, [], [child]);
      && FirstReg(n, mem, strings) == None && Found(n, false, mem, strings) == OwnReg(child.props, mem, strings)
  {
    var nodes, none := [child], child.children;
    assert nodes[1..] == [] && IsMemory(MEMORY);
    assert FirstRegAll(none, mem, strings) == None && FoundAll(none, true, mem, strings) == None;
    assert FirstReg(child, mem, strings) == None;
    assert Found(child, true, mem, strings) == OwnReg(child.props, mem, strings);
    assert FirstRegAll(nodes, mem, strings) == None;
    assert FoundAll(nodes, true, mem, strings) == OwnReg(child.props, mem, strings);
  }

  /** Tokens without meaning may stand anywhere. */
  lemma {:induction false} NopsDoNotMatter(before: seq<Token>, after: seq<Token>, inMemory: bool, mem: seq<Byte>,
      strings: nat)
    ensures Scan(before + [Nop] + after, inMemory, mem, strings) == Scan(before + after, inMemory, mem, strings)
    decreases |before|
  {
    var long, short := before + [Nop] + after, before + after;
    if before == [] {
      assert long[1..] == after && short == after;
    } else {
      assert long[1..] == before[1..] + [Nop] + after && short[1..] == before[1..] + after;
      assert long[0] == before[0] == short[0];
      var t := before[0];
      NopsDoNotMatter(before[1..], after,
        if t.BeginNode? then inMemory || IsMemory(t.name) else if t.EndNode? then false else inMemory, mem, strings);
    }
  }
}
