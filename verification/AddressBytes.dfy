/**
The byte-level address arithmetic of pkg/utils/cidr.go and pkg/utils/ip.go, and its agreement with the numbers of
module `Addresses`. A `net.IP` is a sequence of bytes, of any length; Go's nil is the empty one.
*/
module AddressBytes {
  import opened Powers
  import opened Addresses

  type Byte = b: int | 0 <= b < 256

  // ---- bytes and numbers --------------------------------------------------------------------------------

  /** The first `n` bytes, read as a big-endian number. */
  function ValueTo(bs: seq<Byte>, n: nat): (v: nat)
    requires n <= |bs|
  {
    if n == 0 then 0 else 256 * ValueTo(bs, n - 1) + bs[n - 1]
  }

  /** `big.Int.SetBytes`. */
  function Value(bs: seq<Byte>): (v: nat) {
    ValueTo(bs, |bs|)
  }

  /** `big.Int.Bytes`: the shortest big-endian form, which is empty for zero. */
  function MinBytes(v: nat): (bs: seq<Byte>) {
    if v == 0 then [] else MinBytes(v / 256) + [v % 256]
  }

  function Zeros(n: nat): (bs: seq<Byte>)
    ensures |bs| == n && forall i :: 0 <= i < n ==> bs[i] == 0
  {
    if n == 0 then [] else Zeros(n - 1) + [0]
  }

  lemma {:induction false} SamePrefix(a: seq<Byte>, b: seq<Byte>, n: nat)
    requires n <= |a| && n <= |b| && forall i :: 0 <= i < n ==> a[i] == b[i]
    ensures ValueTo(a, n) == ValueTo(b, n)
  {
    if n > 0 {
      SamePrefix(a, b, n - 1);
    }
  }

  lemma EightBits(n: nat)
    ensures Pow2(8 * (n + 1)) == 256 * Pow2(8 * n)
  {
    PowShift(8 * n);
  }

  /** Numbers of `n` bytes are those below 2^8n, each with one form. */
  lemma {:induction false} ValueBound(bs: seq<Byte>, n: nat)
    requires n <= |bs|
    ensures ValueTo(bs, n) < Pow2(8 * n)
  {
    if n > 0 {
      ValueBound(bs, n - 1);
      EightBits(n - 1);
    }
  }

  lemma {:induction false} ValueUnique(a: seq<Byte>, b: seq<Byte>, n: nat)
    requires n <= |a| && n <= |b| && ValueTo(a, n) == ValueTo(b, n)
    ensures a[..n] == b[..n]
  {
    if n > 0 {
      ValueUnique(a, b, n - 1);
      assert a[..n] == a[..n - 1] + [a[n - 1]] && b[..n] == b[..n - 1] + [b[n - 1]];
    }
  }

  lemma {:induction false} MinBytesValue(v: nat)
    ensures Value(MinBytes(v)) == v
  {
    if v > 0 {
      var high := MinBytes(v / 256);
      MinBytesValue(v / 256);
      SamePrefix(high, MinBytes(v), |high|);
    }
  }

  lemma {:induction false} MinBytesLength(v: nat, n: nat)
    ensures |MinBytes(v)| <= n <==> v < Pow2(8 * n)
    decreases n
  {
    if n > 0 && v > 0 {
      MinBytesLength(v / 256, n - 1);
      EightBits(n - 1);
    }
  }

  lemma {:induction false} PaddedValue(k: nat, bs: seq<Byte>, n: nat)
    requires n <= |bs|
    ensures ValueTo(Zeros(k) + bs, k + n) == ValueTo(bs, n)
    decreases k + n
  {
    var padded := Zeros(k) + bs;
    if n > 0 {
      PaddedValue(k, bs, n - 1);
      assert padded[k + n - 1] == bs[n - 1];
    } else if k > 0 {
      PaddedValue(k - 1, bs, 0);
      SamePrefix(Zeros(k - 1) + bs, padded, k - 1);
      assert padded[k - 1] == 0;
    }
  }

  lemma {:induction false} ZeroValue(bs: seq<Byte>, n: nat)
    requires n <= |bs|
    ensures ValueTo(bs, n) == 0 <==> forall i :: 0 <= i < n ==> bs[i] == 0
  {
    if n > 0 {
      ZeroValue(bs, n - 1);
    }
  }

  // ---- net.IP -------------------------------------------------------------------------------------------

  /** Sixteen bytes that `net.IP` takes for an IPv4 address. */
  predicate Mapped(ip: seq<Byte>) {
    |ip| == 16 && (forall i :: 0 <= i < 10 ==> ip[i] == 0) && ip[10] == 255 && ip[11] == 255
  }

  function To4(ip: seq<Byte>): (r: seq<Byte>)
    ensures r == [] || |r| == 4
  {
    if |ip| == 4 then ip else if Mapped(ip) then ip[12..] else []
  }

  function To16(ip: seq<Byte>): (r: seq<Byte>) {
    if |ip| == 4 then Zeros(10) + [255, 255] + ip else if |ip| == 16 then ip else []
  }

  function NormalizeIP(ip: seq<Byte>): (r: seq<Byte>) {
    if To4(ip) != [] then To4(ip) else To16(ip)
  }

  /** A result of the arithmetic: bytes, Go's nil, or a panic for a negative buffer size. */
  datatype Outcome = Bytes(ip: seq<Byte>) | Nil | Panic

  function IntToIP(i: int, isIPv6: bool): (r: Outcome) {
    var intBytes := MinBytes(if i < 0 then -i else i);
    if |intBytes| == 4 || |intBytes| == 16 then Bytes(intBytes)
    else
      var size := if isIPv6 then 16 else 4;
      if |intBytes| > size then Panic else Bytes(Zeros(size - |intBytes|) + intBytes)
  }

  function NextBytes(ip: seq<Byte>): (r: Outcome) {
    var normalized := NormalizeIP(ip);
    if normalized == [] then Nil else IntToIP(Value(normalized) + 1, |normalized| == 16)
  }

  function PrevBytes(ip: seq<Byte>): (r: Outcome) {
    var normalized := NormalizeIP(ip);
    if normalized == [] then Nil else IntToIP(Value(normalized) - 1, |normalized| == 16)
  }

  function CmpBytes(a: seq<Byte>, b: seq<Byte>): (r: int) {
    var (na, nb) := (NormalizeIP(a), NormalizeIP(b));
    if |na| == |nb| && |na| != 0 then
      (if Value(na) < Value(nb) then -1 else if Value(na) == Value(nb) then 0 else 1)
    else -2
  }

  function CapacityBytes(a: seq<Byte>, b: seq<Byte>): (n: nat) {
    var (na, nb) := (NormalizeIP(a), NormalizeIP(b));
    if na == [] || nb == [] || |na| != |nb| then 0
    else (if Value(nb) < Value(na) then Value(na) - Value(nb) else Value(nb) - Value(na)) + 1
  }

  // ---- the address that bytes stand for -----------------------------------------------------------------

  /** The address of a `net.IP`; none for bytes that are no address. */
  function AddrOf(ip: seq<Byte>): (r: Option<Addr>) {
    var normalized := NormalizeIP(ip);
    if |normalized| == 4 then Some(Addr(IPv4, Value(normalized)))
    else if |normalized| == 16 then Some(Addr(IPv6, Value(normalized)))
    else None
  }

  /** The IPv4-mapped numbers. */
  predicate MappedValue(v: nat) {
    0xffff_0000_0000 <= v < 0x1_0000_0000_0000
  }

  /** The numbers whose shortest form has four bytes. */
  predicate FourBytes(v: nat) {
    0x100_0000 <= v < 0x1_0000_0000
  }

  /** The values that the arithmetic can land on in a family. */
  predicate Lands(a: Addr) {
    InFamily(a) && (a.fam == IPv6 ==> !FourBytes(a.val) && !MappedValue(a.val))
  }

  lemma TwoMore(bs: seq<Byte>, n: nat)
    requires n + 2 <= |bs|
    ensures ValueTo(bs, n + 2) == 65536 * ValueTo(bs, n) + 256 * (bs[n] as int) + bs[n + 1]
  {
    assert ValueTo(bs, n + 2) == 256 * ValueTo(bs, n + 1) + bs[n + 1];
  }

  lemma MappedMeans(ip: seq<Byte>)
    requires |ip| == 16
    ensures Mapped(ip) <==> MappedValue(Value(ip))
    ensures Mapped(ip) ==> Value(ip[12..]) == Value(ip) - 0xffff_0000_0000
  {
    var tail := ip[12..];
    ZeroValue(ip, 10);
    TwoMore(ip, 10);
    TwoMore(ip, 12);
    TwoMore(ip, 14);
    TwoMore(tail, 0);
    TwoMore(tail, 2);
    ValueBound(ip, 10);
  }

  lemma FourBytesMeans(v: nat)
    ensures |MinBytes(v)| == 4 <==> FourBytes(v)
  {
    var v1 := v / 256;
    var v2 := v1 / 256;
    var v3 := v2 / 256;
    assert |MinBytes(v)| == if v == 0 then 0 else |MinBytes(v1)| + 1;
    assert |MinBytes(v1)| == if v1 == 0 then 0 else |MinBytes(v2)| + 1;
    assert |MinBytes(v2)| == if v2 == 0 then 0 else |MinBytes(v3)| + 1;
    assert |MinBytes(v3)| == if v3 == 0 then 0 else |MinBytes(v3 / 256)| + 1;
  }

  /** Bytes of a family's length stand for an address of that family, but for mapped ones. */
  lemma AddrOfSized(bs: seq<Byte>, f: Family)
    requires (f == IPv4 || f == IPv6) && |bs| == f.bytes
    ensures AddrOf(bs) == Some(Addr(f, Value(bs))) <==> !(f == IPv6 && MappedValue(Value(bs)))
    ensures f == IPv6 && MappedValue(Value(bs)) ==> AddrOf(bs) == Some(Addr(IPv4, Value(bs) - 0xffff_0000_0000))
  {
    if f == IPv6 {
      MappedMeans(bs);
    }
  }

  /** The conversion back to bytes gives the address of the family if and only if its value can be landed on. */
  lemma IntToIPExact(v: nat, f: Family)
    requires f == IPv4 || f == IPv6
    ensures var r := IntToIP(v, f == IPv6);
      (r.Bytes? && AddrOf(r.ip) == Some(Addr(f, v))) <==> Lands(Addr(f, v))
  {
    var bs, r := MinBytes(v), IntToIP(v, f == IPv6);
    MinBytesValue(v);
    MinBytesLength(v, f.bytes);
    FourBytesMeans(v);
    if r.Bytes? {
      if |bs| != 4 && |bs| != 16 {
        PaddedValue(f.bytes - |bs|, bs, |bs|);
      }
      assert Value(r.ip) == v;
      AddrOfSized(r.ip, if |r.ip| == 4 then IPv4 else IPv6);
    }
  }

  /** The arithmetic works on the number of the address. */
  lemma StepsOnNumber(ip: seq<Byte>)
    requires AddrOf(ip).Some?
    ensures var a := AddrOf(ip).value;
      && (a.fam == IPv4 || a.fam == IPv6)
      && NextBytes(ip) == IntToIP(a.val + 1, a.fam == IPv6) && PrevBytes(ip) == IntToIP(a.val - 1, a.fam == IPv6)
  {
  }

  /** NextIP is the successor in the same family if and only if that can be landed on: it is not one past the last
      address, nor an IPv6 value that the bytes would turn into IPv4. */
  lemma NextExact(ip: seq<Byte>, a: Addr)
    requires AddrOf(ip) == Some(a)
    ensures var r := NextBytes(ip);
      (r.Bytes? && AddrOf(r.ip) == Some(Addr(a.fam, a.val + 1))) <==> Lands(Addr(a.fam, a.val + 1))
  {
    StepsOnNumber(ip);
    IntToIPExact(a.val + 1, a.fam);
  }

  /** PrevIP likewise. */
  lemma PrevExact(ip: seq<Byte>, a: Addr)
    requires AddrOf(ip) == Some(a) && a.val > 0
    ensures var r := PrevBytes(ip);
      (r.Bytes? && AddrOf(r.ip) == Some(Addr(a.fam, a.val - 1))) <==> Lands(Addr(a.fam, a.val - 1))
  {
    StepsOnNumber(ip);
    IntToIPExact(a.val - 1, a.fam);
  }

  lemma OneInFamily(f: Family)
    ensures 1 <= Max(f)
  {
    Pow2Monotonic(1, Width(f));
  }

  /** The predecessor of a family's zero is one: the sign is lost. */
  lemma PrevOfZero(ip: seq<Byte>, f: Family)
    requires AddrOf(ip) == Some(Addr(f, 0))
    ensures PrevBytes(ip).Bytes? && AddrOf(PrevBytes(ip).ip) == Some(Addr(f, 1))
  {
    StepsOnNumber(ip);
    OneInFamily(f);
    IntToIPExact(1, f);
  }

  /** PrevIP undoes NextIP if and only if the address can itself be landed on. */
  lemma PrevUndoesNext(ip: seq<Byte>, a: Addr)
    requires AddrOf(ip) == Some(a) && Lands(Addr(a.fam, a.val + 1))
    ensures NextBytes(ip).Bytes?
    ensures var r := PrevBytes(NextBytes(ip).ip); (r.Bytes? && AddrOf(r.ip) == Some(a)) <==> Lands(a)
  {
    NextExact(ip, a);
    PrevExact(NextBytes(ip).ip, Addr(a.fam, a.val + 1));
  }

  /** On the regular addresses of module `Addresses` the bytes do what its NextIP and PrevIP say. */
  lemma NextAgrees(ip: seq<Byte>, a: Addr)
    requires AddrOf(ip) == Some(a) && Regular(a) && a.val < Max(a.fam)
    ensures NextBytes(ip).Bytes? && AddrOf(NextBytes(ip).ip) == Some(NextIP(a))
  {
    NextExact(ip, a);
  }

  lemma PrevAgrees(ip: seq<Byte>, a: Addr)
    requires AddrOf(ip) == Some(a) && Regular(a)
    ensures PrevBytes(ip).Bytes? && AddrOf(PrevBytes(ip).ip) == Some(PrevIP(a))
  {
    if a.val == 0 {
      PrevOfZero(ip, a.fam);
    } else {
      PrevExact(ip, a);
    }
  }

  lemma OneByteMore(f: Family)
    ensures |MinBytes(Max(f) + 1)| == f.bytes + 1
  {
    MinBytesLength(Max(f) + 1, f.bytes);
    MinBytesLength(Max(f) + 1, f.bytes + 1);
    EightBits(f.bytes);
  }

  /** One past the last address of a family there is nothing to return: NextIP panics. */
  lemma NextPastEnd(ip: seq<Byte>, a: Addr)
    requires AddrOf(ip) == Some(a) && a.val == Max(a.fam)
    ensures NextBytes(ip) == Panic
  {
    StepsOnNumber(ip);
    OneByteMore(a.fam);
  }

  /** Cmp and Capacity are the order and the distance of the numbers, within a family; neither tells two byte
      forms of an address apart. */
  lemma CmpAgrees(a: seq<Byte>, b: seq<Byte>)
    ensures CmpBytes(a, b) ==
      if AddrOf(a).Some? && AddrOf(b).Some? then Cmp(AddrOf(a).value, AddrOf(b).value) else -2
    ensures CmpBytes(a, b) == 0 <==> AddrOf(a).Some? && AddrOf(a) == AddrOf(b)
  {
  }

  lemma CapacityAgrees(a: seq<Byte>, b: seq<Byte>)
    ensures var (x, y) := (AddrOf(a), AddrOf(b));
      CapacityBytes(a, b) ==
        if x.None? || y.None? || x.value.fam != y.value.fam then 0
        else if x.value.val < y.value.val then y.value.val - x.value.val + 1
        else x.value.val - y.value.val + 1
  {
  }

  /** An address has one normal form. */
  lemma NormalFormUnique(a: seq<Byte>, b: seq<Byte>)
    requires AddrOf(a).Some?
    ensures AddrOf(a) == AddrOf(b) <==> NormalizeIP(a) == NormalizeIP(b)
  {
    var (na, nb) := (NormalizeIP(a), NormalizeIP(b));
    if AddrOf(a) == AddrOf(b) {
      ValueUnique(na, nb, |na|);
      assert na[..|na|] == na && nb[..|nb|] == nb;
    }
  }

  // ---- the last address of a block ----------------------------------------------------------------------

  lemma MaskFits(v: nat, k: nat, n: nat)
    requires k <= n && v < Pow2(n)
    ensures Mask(v, k) + Pow2(k) <= Pow2(n)
  {
    MaskBounds(v, k);
    MaskBounds(0, n);
    AlignedNext(0, n);
    AlignedLower(Pow2(n), k, n);
    AlignedApart(Mask(v, k), Pow2(n), k);
  }

  /** The byte with its `k` low bits set: a disjunction with the inverted mask byte. */
  function SetLow(b: Byte, k: nat): (r: Byte)
    requires k <= 8
    ensures r as int == Mask(b, k) + Pow2(k) - 1
  {
    EightBits(0);
    MaskFits(b, k, 8);
    Mask(b, k) + Pow2(k) - 1
  }

  /** How many of the first `n` bits are host bits under a prefix of `plen` bits. */
  function HostBitsOf(n: nat, plen: nat): (h: nat) {
    if n <= plen then 0 else n - plen
  }

  lemma {:induction false} MaskAdd(m: nat, x: nat, k: nat)
    requires Aligned(m, k)
    ensures Mask(m + x, k) == m + Mask(x, k)
  {
    if k > 0 {
      MaskAdd(m / 2, x / 2, k - 1);
      assert (m + x) / 2 == m / 2 + x / 2;
    }
  }

  lemma MaskByteShift(v: nat, x: Byte, h: nat)
    ensures Mask(256 * v + x, h + 8) == 256 * Mask(v, h)
  {
    var w0 := 256 * v + x;
    var w1 := w0 / 2;
    var w2 := w1 / 2;
    var w3 := w2 / 2;
    var w4 := w3 / 2;
    var w5 := w4 / 2;
    var w6 := w5 / 2;
    var w7 := w6 / 2;
    assert w7 / 2 == v;
    assert Mask(w0, h + 8) == 2 * Mask(w1, h + 7) && Mask(w1, h + 7) == 2 * Mask(w2, h + 6);
    assert Mask(w2, h + 6) == 2 * Mask(w3, h + 5) && Mask(w3, h + 5) == 2 * Mask(w4, h + 4);
    assert Mask(w4, h + 4) == 2 * Mask(w5, h + 3) && Mask(w5, h + 3) == 2 * Mask(w6, h + 2);
    assert Mask(w6, h + 2) == 2 * Mask(w7, h + 1) && Mask(w7, h + 1) == 2 * Mask(v, h);
  }

  /** One more byte of the last address: the number so far and the byte have their host bits set. */
  lemma LastByte(v: nat, x: Byte, n: nat, plen: nat)
    ensures HostBitsOf(8 * n + 8, plen) - HostBitsOf(8 * n, plen) <= 8
    ensures var (h, h') := (HostBitsOf(8 * n, plen), HostBitsOf(8 * n + 8, plen));
      256 * (Mask(v, h) + Pow2(h) - 1) + SetLow(x, h' - h) == Mask(256 * v + x, h') + Pow2(h') - 1
  {
    var h, h' := HostBitsOf(8 * n, plen), HostBitsOf(8 * n + 8, plen);
    if h > 0 {
      MaskByteShift(v, x, h);
      MaskByteShift(0, x, 0);
      PowShift(h);
      PowShift(0);
    } else {
      MaskByteShift(v, 0, 0);
      AlignedLower(256 * v, h', 8);
      MaskAdd(256 * v, x, h');
    }
  }

  /** One byte of the address with its host bits set. */
  function FilledByte(ip: seq<Byte>, plen: nat, i: nat): (b: Byte)
    requires i < |ip|
  {
    SetLow(ip[i], HostBitsOf(8 * i + 8, plen) - HostBitsOf(8 * i, plen))
  }

  /** The first `n` bytes of the address, with the host bits among them set. */
  ghost predicate Filled(ip: seq<Byte>, plen: nat, end: seq<Byte>, n: nat)
    requires n <= |ip|
  {
    var h := HostBitsOf(8 * n, plen);
    |end| == n && Value(end) == Mask(ValueTo(ip, n), h) + Pow2(h) - 1
  }

  lemma FillStep(ip: seq<Byte>, plen: nat, end: seq<Byte>, n: nat)
    requires n < |ip| && Filled(ip, plen, end, n)
    ensures Filled(ip, plen, end + [FilledByte(ip, plen, n)], n + 1)
  {
    LastByte(ValueTo(ip, n), ip[n], n, plen);
    var more := end + [FilledByte(ip, plen, n)];
    SamePrefix(end, more, n);
    assert 8 * (n + 1) == 8 * n + 8;
  }

  /** The bytes of the last address of a block. */
  method FillHostBits(ip: seq<Byte>, plen: nat) returns (end: seq<Byte>)
    requires plen <= 8 * |ip|
    ensures |end| == |ip| && Value(end) == Mask(Value(ip), 8 * |ip| - plen) + Pow2(8 * |ip| - plen) - 1
    ensures forall i :: 0 <= i < |ip| ==> end[i] == FilledByte(ip, plen, i)
  {
    end := [];
    for i := 0 to |ip|
      invariant Filled(ip, plen, end, i)
      invariant forall j :: 0 <= j < i ==> end[j] == FilledByte(ip, plen, j)
    {
      FillStep(ip, plen, end, i);
      end := end + [FilledByte(ip, plen, i)];
    }
  }

  /** The fourth byte decremented, without a borrow. */
  function DropOne(bs: seq<Byte>): (r: seq<Byte>)
    requires |bs| >= 4
  {
    bs[3 := if bs[3] == 0 then 255 else bs[3] - 1]
  }

  lemma DropOneValue(bs: seq<Byte>)
    requires |bs| == 4
    ensures Value(DropOne(bs)) == if Value(bs) % 256 == 0 then Value(bs) + 255 else Value(bs) - 1
  {
    SamePrefix(bs, DropOne(bs), 3);
  }

  /** The block of a prefix around an address, and its last address before the decrement. */
  function BlockOf(f: Family, v: nat, plen: nat): (n: Net)
    requires plen <= Width(f)
    ensures n.Last() == Mask(v, Width(f) - plen) + Pow2(Width(f) - plen) - 1
  {
    Net(f, Mask(v, Width(f) - plen), plen)
  }

  lemma LastUsableOf(bs: seq<Byte>, n: Net)
    requires n.fam.bytes == |bs| && Value(bs) == n.Last()
    ensures if |bs| == 4 then LastUsable(n).val == Value(DropOne(bs)) else LastUsable(n).val == Value(bs)
  {
    if |bs| == 4 {
      DropOneValue(bs);
    }
  }

  /** Whatever the prefix, the decrement spoils a mapped address: the fourth byte, or the one behind it, is not zero. */
  lemma MappedSpoilt(ip: seq<Byte>, plen: nat, end: seq<Byte>)
    requires Mapped(ip) && plen <= 128 && |end| == 16
    requires forall i :: 0 <= i < 16 ==> end[i] == FilledByte(ip, plen, i)
    ensures !Mapped(DropOne(end))
  {
    if plen >= 32 {
      assert FilledByte(ip, plen, 3) == SetLow(0, 0) == 0;
      assert DropOne(end)[3] == 255;
    } else {
      PowShift(0);
      MaskBounds(0, 8);
      assert DropOne(end)[4] == FilledByte(ip, plen, 4) == SetLow(0, 8) == 255;
    }
  }

  lemma MappedEnd(ip: seq<Byte>, plen: nat, end: seq<Byte>)
    requires Mapped(ip) && plen <= 128 && |end| == 16
    requires forall i :: 0 <= i < 16 ==> end[i] == FilledByte(ip, plen, i)
    ensures AddrOf(ip).value.fam == IPv4 && AddrOf(DropOne(end)).value.fam == IPv6
  {
    MappedSpoilt(ip, plen, end);
  }

  /** LastIP of a block as parsed; for IPv4, and for what `net.IP` takes for it, the fourth byte is decremented. An
      IPv4-mapped block of sixteen bytes thereby gets a last address that is no IPv4 address. */
  method LastIP(ip: seq<Byte>, plen: nat) returns (end: seq<Byte>)
    requires (|ip| == 4 || |ip| == 16) && plen <= 8 * |ip|
    ensures |end| == |ip|
    ensures !Mapped(ip) ==> Value(end) == LastUsable(BlockOf(Family(|ip|), Value(ip), plen)).val
    ensures Mapped(ip) ==> AddrOf(ip).value.fam == IPv4 && AddrOf(end).value.fam == IPv6
  {
    end := FillHostBits(ip, plen);
    if Mapped(ip) {
      MappedEnd(ip, plen, end);
    } else {
      LastUsableOf(end, BlockOf(Family(|ip|), Value(ip), plen));
    }
    if To4(ip) != [] {
      end := DropOne(end);
    }
  }
}
