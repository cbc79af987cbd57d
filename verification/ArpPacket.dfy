/**
The ARP packet codec (pkg/daemon/arp/packet.go), after the "Packet format" section of RFC 826. Buffers are arrays
that the code writes into at a moving offset; addresses are byte sequences of any length.
*/
module ArpPacket {
  import opened Addresses
  import opened AddressBytes

  type Word = w: int | 0 <= w < 65536

  datatype Packet = Packet(
    hardwareType: Word, protocolType: Word, hardwareAddrLength: Byte, ipLength: Byte, operation: Word,
    senderHardwareAddr: seq<Byte>, senderIP: seq<Byte>, targetHardwareAddr: seq<Byte>, targetIP: seq<Byte>)
  {
    /** The size the wire format needs. */
    function Size(): (n: nat) {
      8 + 2 * (hardwareAddrLength as nat) + 2 * (ipLength as nat)
    }

    /** The size the code computes, in eight bits. */
    function BufferSize(): (n: nat)
      ensures Size() <= 255 ==> n == Size()
      ensures Size() > 255 ==> n < Size()
    {
      (8 + (2 * (ipLength as int)) % 256 + (2 * (hardwareAddrLength as int)) % 256) % 256
    }

    /** The length fields tell the lengths of the addresses. */
    predicate Honest() {
      && |senderHardwareAddr| == hardwareAddrLength && |targetHardwareAddr| == hardwareAddrLength
      && |senderIP| == ipLength && |targetIP| == ipLength
    }
  }

  function PutWord(w: Word): (bs: seq<Byte>)
    ensures |bs| == 2
  {
    [w / 256, w % 256]
  }

  function GetWord(bs: seq<Byte>, i: nat): (w: Word)
    requires i + 2 <= |bs|
  {
    256 * (bs[i] as int) + bs[i + 1] as int
  }

  /** Exactly `n` bytes of an address: cut off, or filled up with zeros, as `copy` into a zeroed slot leaves it. */
  function Fit(bs: seq<Byte>, n: nat): (r: seq<Byte>)
    ensures |r| == n
  {
    if |bs| >= n then bs[..n] else bs + Zeros(n - |bs|)
  }

  function Header(p: Packet): (bs: seq<Byte>)
    ensures |bs| == 8
  {
    PutWord(p.hardwareType) + PutWord(p.protocolType) + [p.hardwareAddrLength, p.ipLength] + PutWord(p.operation)
  }

  /** The wire form. */
  function Encode(p: Packet): (bs: seq<Byte>)
    ensures |bs| == p.Size()
  {
    var (ml, il) := (p.hardwareAddrLength as nat, p.ipLength as nat);
    Header(p) + Fit(p.senderHardwareAddr, ml) + Fit(p.senderIP, il)
    + Fit(p.targetHardwareAddr, ml) + Fit(p.targetIP, il)
  }

  /** The packet with the fixed part read from a buffer. */
  function WithHeader(p: Packet, b: seq<Byte>): (r: Packet)
    requires |b| >= 8
  {
    p.(hardwareType := GetWord(b, 0), protocolType := GetWord(b, 2), hardwareAddrLength := b[4], ipLength := b[5],
      operation := GetWord(b, 6))
  }

  /** The packet read from a buffer that is long enough for its length fields. */
  function Decode(b: seq<Byte>): (p: Packet)
    requires |b| >= 8 && |b| >= 8 + 2 * (b[4] as nat) + 2 * (b[5] as nat)
    ensures p.Honest()
  {
    var (ml, il) := (b[4] as nat, b[5] as nat);
    Packet(GetWord(b, 0), GetWord(b, 2), b[4], b[5], GetWord(b, 6),
      b[8..8 + ml], b[8 + ml..8 + ml + il], b[8 + ml + il..8 + 2 * ml + il], b[8 + 2 * ml + il..8 + 2 * ml + 2 * il])
  }

  // ---- round trips ----------------------------------------------------------------------------------------

  lemma WordRoundTrip(w: Word, b: seq<Byte>, i: nat)
    requires i + 2 <= |b| && b[i..i + 2] == PutWord(w)
    ensures GetWord(b, i) == w
  {
    assert b[i] == b[i..i + 2][0] && b[i + 1] == b[i..i + 2][1];
  }

  lemma FitExact(bs: seq<Byte>, n: nat)
    ensures Fit(bs, n) == bs <==> |bs| == n
  {
  }

  lemma HeaderRead(p: Packet, b: seq<Byte>)
    requires |b| >= 8 && b[..8] == Header(p)
    ensures
      && b[4] == p.hardwareAddrLength && b[5] == p.ipLength
      && GetWord(b, 0) == p.hardwareType && GetWord(b, 2) == p.protocolType && GetWord(b, 6) == p.operation
  {
    var h := Header(p);
    assert b[4] == h[4] && b[5] == h[5];
    assert b[0..2] == h[0..2] == PutWord(p.hardwareType);
    assert b[2..4] == h[2..4] == PutWord(p.protocolType);
    assert b[6..8] == h[6..8] == PutWord(p.operation);
    WordRoundTrip(p.hardwareType, b, 0);
    WordRoundTrip(p.protocolType, b, 2);
    WordRoundTrip(p.operation, b, 6);
  }

  /** Four consecutive pieces are read back from where they were put. */
  lemma Pieces(h: seq<Byte>, a: seq<Byte>, b: seq<Byte>, c: seq<Byte>, d: seq<Byte>)
    requires |h| == 8 && |c| == |a| && |d| == |b|
    ensures var (s, m, i) := (h + a + b + c + d, |a|, |b|);
      && s[..8] == h && s[8..8 + m] == a && s[8 + m..8 + m + i] == b
      && s[8 + m + i..8 + 2 * m + i] == c && s[8 + 2 * m + i..8 + 2 * m + 2 * i] == d
  {
  }

  lemma EncodePieces(p: Packet)
    ensures var (b, ml, il) := (Encode(p), p.hardwareAddrLength as nat, p.ipLength as nat);
      && b[..8] == Header(p)
      && b[8..8 + ml] == Fit(p.senderHardwareAddr, ml) && b[8 + ml..8 + ml + il] == Fit(p.senderIP, il)
      && b[8 + ml + il..8 + 2 * ml + il] == Fit(p.targetHardwareAddr, ml)
      && b[8 + 2 * ml + il..8 + 2 * ml + 2 * il] == Fit(p.targetIP, il)
  {
    var ml, il := p.hardwareAddrLength as nat, p.ipLength as nat;
    Pieces(Header(p), Fit(p.senderHardwareAddr, ml), Fit(p.senderIP, il), Fit(p.targetHardwareAddr, ml),
           Fit(p.targetIP, il));
  }

  /** Reading what was written gives every field back, with the addresses fitted to the length fields. */
  lemma DecodeEncode(p: Packet)
    ensures var b := Encode(p);
      && b[4] == p.hardwareAddrLength && b[5] == p.ipLength
      && Decode(b) == p.(
        senderHardwareAddr := Fit(p.senderHardwareAddr, p.hardwareAddrLength), senderIP := Fit(p.senderIP, p.ipLength),
        targetHardwareAddr := Fit(p.targetHardwareAddr, p.hardwareAddrLength), targetIP := Fit(p.targetIP, p.ipLength))
  {
    EncodePieces(p);
    HeaderRead(p, Encode(p));
  }

  /** So a packet survives the wire if and only if its length fields are honest. */
  lemma RoundTrip(p: Packet)
    ensures var b := Encode(p);
      && b[4] == p.hardwareAddrLength && b[5] == p.ipLength
      && (Decode(b) == p <==> p.Honest())
  {
    DecodeEncode(p);
    FitExact(p.senderHardwareAddr, p.hardwareAddrLength);
    FitExact(p.senderIP, p.ipLength);
    FitExact(p.targetHardwareAddr, p.hardwareAddrLength);
    FitExact(p.targetIP, p.ipLength);
  }

  // ---- the wire, byte by byte -----------------------------------------------------------------------------

  /** A slot of `n` bytes holds an address from its first byte on, cut off at the end or followed by zeros. */
  ghost predicate Slot(r: seq<Byte>, at: nat, n: nat, addr: seq<Byte>) {
    at + n <= |r| && forall i :: at <= i < at + n ==> r[i] == if i - at < |addr| then addr[i - at] else 0
  }

  /** The fixed part, in network byte order. */
  ghost predicate FixedPart(r: seq<Byte>, p: Packet) {
    && |r| >= 8
    && 256 * (r[0] as int) + r[1] as int == p.hardwareType && 256 * (r[2] as int) + r[3] as int == p.protocolType
    && r[4] == p.hardwareAddrLength && r[5] == p.ipLength
    && 256 * (r[6] as int) + r[7] as int == p.operation
  }

  /** A hardware address and, behind it, a protocol address. */
  ghost predicate Party(r: seq<Byte>, at: nat, ml: nat, il: nat, hw: seq<Byte>, ip: seq<Byte>) {
    Slot(r, at, ml, hw) && Slot(r, at + ml, il, ip)
  }

  /** The packet format of RFC 826: the fixed part, the sender, the target. */
  ghost predicate OnWire(r: seq<Byte>, p: Packet) {
    var (ml, il) := (p.hardwareAddrLength as nat, p.ipLength as nat);
    && |r| == 8 + 2 * ml + 2 * il && FixedPart(r, p)
    && Party(r, 8, ml, il, p.senderHardwareAddr, p.senderIP)
    && Party(r, 8 + ml + il, ml, il, p.targetHardwareAddr, p.targetIP)
  }

  lemma WordBytes(w: Word, x: Byte, y: Byte)
    ensures 256 * (x as int) + y as int == w <==> [x, y] == PutWord(w)
  {
  }

  lemma FourPairs(a: seq<Byte>, b: seq<Byte>, c: seq<Byte>, d: seq<Byte>,
                  e: seq<Byte>, f: seq<Byte>, g: seq<Byte>, h: seq<Byte>)
    requires |a| == |b| == |c| == |d| == |e| == |f| == |g| == |h| == 2
    ensures a + b + c + d == e + f + g + h <==> a == e && b == f && c == g && d == h
  {
    if a + b + c + d == e + f + g + h {
      var s, t := a + b + c + d, e + f + g + h;
      assert s[0..2] == a && s[2..4] == b && s[4..6] == c && s[6..8] == d;
      assert t[0..2] == e && t[2..4] == f && t[4..6] == g && t[6..8] == h;
    }
  }

  lemma FixedExact(r: seq<Byte>, p: Packet)
    requires |r| >= 8
    ensures FixedPart(r, p) <==> r[..8] == Header(p)
  {
    WordBytes(p.hardwareType, r[0], r[1]);
    WordBytes(p.protocolType, r[2], r[3]);
    WordBytes(p.operation, r[6], r[7]);
    assert r[..8] == [r[0], r[1]] + [r[2], r[3]] + [r[4], r[5]] + [r[6], r[7]];
    FourPairs([r[0], r[1]], [r[2], r[3]], [r[4], r[5]], [r[6], r[7]], PutWord(p.hardwareType),
              PutWord(p.protocolType), [p.hardwareAddrLength, p.ipLength], PutWord(p.operation));
  }

  lemma SlotOf(s: seq<Byte>, n: nat, addr: seq<Byte>, t: seq<Byte>)
    ensures Slot(s + Fit(addr, n) + t, |s|, n, addr)
  {
    var f := Fit(addr, n);
    var r := s + f + t;
    forall i | |s| <= i < |s| + n
      ensures r[i] == if i - |s| < |addr| then addr[i - |s|] else 0
    {
      assert r[i] == f[i - |s|];
    }
  }

  lemma SlotsOf(r: seq<Byte>, h: seq<Byte>, ml: nat, il: nat, a: seq<Byte>, b: seq<Byte>, c: seq<Byte>, d: seq<Byte>)
    requires |h| == 8 && r == h + Fit(a, ml) + Fit(b, il) + Fit(c, ml) + Fit(d, il)
    ensures Party(r, 8, ml, il, a, b) && Party(r, 8 + ml + il, ml, il, c, d)
  {
    var f1, f2, f3, f4 := Fit(a, ml), Fit(b, il), Fit(c, ml), Fit(d, il);
    assert r == h + f1 + (f2 + f3 + f4) && r == (h + f1) + f2 + (f3 + f4);
    assert r == (h + f1 + f2) + f3 + f4 && r == (h + f1 + f2 + f3) + f4 + [];
    SlotOf(h, ml, a, f2 + f3 + f4);
    SlotOf(h + f1, il, b, f3 + f4);
    SlotOf(h + f1 + f2, ml, c, f4);
    SlotOf(h + f1 + f2 + f3, il, d, []);
  }

  lemma EncodeFixed(p: Packet)
    ensures FixedPart(Encode(p), p)
  {
    assert Encode(p)[..8] == Header(p);
    FixedExact(Encode(p), p);
  }

  lemma EncodeOnWire(p: Packet)
    ensures OnWire(Encode(p), p)
  {
    SlotsOf(Encode(p), Header(p), p.hardwareAddrLength as nat, p.ipLength as nat, p.senderHardwareAddr, p.senderIP,
            p.targetHardwareAddr, p.targetIP);
    EncodeFixed(p);
  }

  lemma SameSlot(r: seq<Byte>, t: seq<Byte>, at: nat, n: nat, addr: seq<Byte>)
    requires Slot(r, at, n, addr) && Slot(t, at, n, addr)
    ensures forall i :: at <= i < at + n ==> r[i] == t[i]
  {
  }

  lemma SameFixed(r: seq<Byte>, t: seq<Byte>, p: Packet)
    requires FixedPart(r, p) && FixedPart(t, p)
    ensures forall i :: 0 <= i < 8 ==> r[i] == t[i]
  {
  }

  /** The wire form is the one string of bytes that has every field at its place. */
  lemma WireExact(r: seq<Byte>, p: Packet)
    ensures r == Encode(p) <==> OnWire(r, p)
  {
    var t, ml, il := Encode(p), p.hardwareAddrLength as nat, p.ipLength as nat;
    EncodeOnWire(p);
    if OnWire(r, p) {
      SameFixed(r, t, p);
      SameSlot(r, t, 8, ml, p.senderHardwareAddr);
      SameSlot(r, t, 8 + ml, il, p.senderIP);
      SameSlot(r, t, 8 + ml + il, ml, p.targetHardwareAddr);
      SameSlot(r, t, 8 + 2 * ml + il, il, p.targetIP);
      assert forall i :: 0 <= i < |t| ==> r[i] == t[i];
    }
  }

  lemma PartyRead(b: seq<Byte>, size: nat, at: nat, ml: nat, il: nat)
    requires at + ml + il <= size <= |b|
    ensures Party(b[..size], at, ml, il, b[at..at + ml], b[at + ml..at + ml + il])
  {
  }

  /** What is read comes from the same places. */
  lemma DecodeOnWire(b: seq<Byte>)
    requires |b| >= 8 && |b| >= 8 + 2 * (b[4] as nat) + 2 * (b[5] as nat)
    ensures Decode(b).Size() <= |b| && OnWire(b[..Decode(b).Size()], Decode(b))
  {
    var size, ml, il := Decode(b).Size(), b[4] as nat, b[5] as nat;
    PartyRead(b, size, 8, ml, il);
    PartyRead(b, size, 8 + ml + il, ml, il);
  }

  /** Writing what was read gives the leading bytes of the buffer back. */
  lemma EncodeDecode(b: seq<Byte>)
    requires |b| >= 8 && |b| >= 8 + 2 * (b[4] as nat) + 2 * (b[5] as nat)
    ensures Encode(Decode(b)) == b[..Decode(b).Size()]
  {
    DecodeOnWire(b);
    WireExact(b[..Decode(b).Size()], Decode(b));
  }

  // ---- the code -------------------------------------------------------------------------------------------

  /** Go's `copy(b[lo:hi], src)`: as many bytes as both sides have. */
  method Copy(b: array<Byte>, lo: nat, hi: nat, src: seq<Byte>)
    requires lo <= hi <= b.Length
    modifies b
    ensures forall i :: 0 <= i < b.Length ==>
      b[i] == if lo <= i < hi && i - lo < |src| then src[i - lo] else old(b[i])
  {
    var n := if |src| < hi - lo then |src| else hi - lo;
    for k := 0 to n
      invariant forall i :: 0 <= i < b.Length ==> b[i] == if lo <= i < lo + k then src[i - lo] else old(b[i])
    {
      b[lo + k] := src[k];
    }
  }

  method ZeroedBuffer(size: nat) returns (b: array<Byte>)
    ensures fresh(b) && b.Length == size && forall i :: 0 <= i < size ==> b[i] == 0
  {
    b := new Byte[size](_ => 0);
  }

  /** A buffer written up to an offset, and zero behind it. */
  ghost predicate Written(b: array<Byte>, n: nat, bs: seq<Byte>)
    reads b
  {
    n <= b.Length && b[..n] == bs && forall i :: n <= i < b.Length ==> b[i] == 0
  }

  /** An address is copied into the next slot of the buffer. */
  method PutAddress(b: array<Byte>, n: nat, length: nat, addr: seq<Byte>, ghost bs: seq<Byte>)
    requires n + length <= b.Length && Written(b, n, bs)
    modifies b
    ensures Written(b, n + length, bs + Fit(addr, length))
  {
    Copy(b, n, n + length, addr);
    assert b[..n + length] == bs + Fit(addr, length);
  }

  /** The fields of a packet, changed in place. */
  class PacketObject {
    var hardwareType: Word
    var protocolType: Word
    var hardwareAddrLength: Byte
    var ipLength: Byte
    var operation: Word
    var senderHardwareAddr: seq<Byte>
    var senderIP: seq<Byte>
    var targetHardwareAddr: seq<Byte>
    var targetIP: seq<Byte>

    constructor (p: Packet)
      ensures State() == p
    {
      hardwareType, protocolType, operation := p.hardwareType, p.protocolType, p.operation;
      hardwareAddrLength, ipLength := p.hardwareAddrLength, p.ipLength;
      senderHardwareAddr, senderIP := p.senderHardwareAddr, p.senderIP;
      targetHardwareAddr, targetIP := p.targetHardwareAddr, p.targetIP;
    }

    function State(): (p: Packet)
      reads this
    {
      Packet(hardwareType, protocolType, hardwareAddrLength, ipLength, operation,
        senderHardwareAddr, senderIP, targetHardwareAddr, targetIP)
    }

    /** The buffer's size is computed in eight bits: where the packet needs more, writing into it panics. */
    method MarshalBinary() returns (r: Option<seq<Byte>>)
      ensures r == if State().Size() <= 255 then Some(Encode(State())) else None
      ensures r.Some? ==> OnWire(r.value, State())
    {
      WireExact(Encode(State()), State());
      var size := State().BufferSize();
      if size < State().Size() {
        return None;
      }
      var b := ZeroedBuffer(size);
      WriteHeader(b);
      WriteAddresses(b);
      return Some(b[..]);
    }

    /** The addresses, one after the other, at the offsets that the length fields give. */
    method WriteAddresses(b: array<Byte>)
      requires b.Length == State().Size() && Written(b, 8, Header(State()))
      modifies b
      ensures b[..] == Encode(State())
    {
      var n, hal, pl := 8, hardwareAddrLength as nat, ipLength as nat;
      ghost var s0 := Header(State());
      PutAddress(b, n, hal, senderHardwareAddr, s0);
      n := n + hal;
      ghost var s1 := s0 + Fit(senderHardwareAddr, hal);
      PutAddress(b, n, pl, senderIP, s1);
      n := n + pl;
      ghost var s2 := s1 + Fit(senderIP, pl);
      PutAddress(b, n, hal, targetHardwareAddr, s2);
      n := n + hal;
      ghost var s3 := s2 + Fit(targetHardwareAddr, hal);
      PutAddress(b, n, pl, targetIP, s3);
      assert b[..] == b[..n + pl];
    }

    method WriteHeader(b: array<Byte>)
      requires b.Length >= 8
      modifies b
      requires forall i :: 0 <= i < b.Length ==> b[i] == 0
      ensures Written(b, 8, Header(State()))
    {
      b[0], b[1] := PutWord(hardwareType)[0], PutWord(hardwareType)[1];
      b[2], b[3] := PutWord(protocolType)[0], PutWord(protocolType)[1];
      b[4] := hardwareAddrLength;
      b[5] := ipLength;
      b[6], b[7] := PutWord(operation)[0], PutWord(operation)[1];
    }

    /** Fails on a buffer too short for the fixed part, or for the addresses; in the second case the fixed part has
        been taken over already. */
    method UnmarshalBinary(b: seq<Byte>) returns (ok: bool)
      modifies this
      ensures ok <==> |b| >= 8 && |b| >= 8 + 2 * (b[4] as nat) + 2 * (b[5] as nat)
      ensures State() ==
        if ok then Decode(b) else if |b| >= 8 then WithHeader(old(State()), b) else old(State())
      ensures |b| >= 8 ==> FixedPart(b, State())
      ensures ok ==> OnWire(b[..State().Size()], State()) && State().Honest()
      ensures !ok ==> senderHardwareAddr == old(senderHardwareAddr) && senderIP == old(senderIP)
      ensures !ok ==> targetHardwareAddr == old(targetHardwareAddr) && targetIP == old(targetIP)
    {
      if |b| < 8 {
        return false;
      }
      hardwareType := GetWord(b, 0);
      protocolType := GetWord(b, 2);
      hardwareAddrLength := b[4];
      ipLength := b[5];
      operation := GetWord(b, 6);
      var n := 8;
      var ml, il := hardwareAddrLength as nat, ipLength as nat;
      var addrl := n + 2 * ml + 2 * il;
      if |b| < addrl {
        return false;
      }
      senderHardwareAddr := b[n..n + ml];
      n := n + ml;
      senderIP := b[n..n + il];
      n := n + il;
      targetHardwareAddr := b[n..n + ml];
      n := n + ml;
      targetIP := b[n..n + il];
      assert State() == Decode(b);
      DecodeOnWire(b);
      return true;
    }
  }

  // ---- packets the code makes -----------------------------------------------------------------------------

  datatype NewResult = Made(packet: Packet) | InvalidHardwareAddr | InvalidIP

  const BROADCAST: seq<Byte> := [255, 255, 255, 255, 255, 255]

  /** A broadcast target may differ in length from the sender; lengths are kept in eight bits. */
  function NewPacket(op: Word, srcHW: seq<Byte>, srcIP: seq<Byte>, dstHW: seq<Byte>, dstIP: seq<Byte>): (r: NewResult)
  {
    if |srcHW| < 6 || |dstHW| < 6 || (dstHW != BROADCAST && |srcHW| != |dstHW|) then InvalidHardwareAddr
    else if To4(srcIP) == [] || To4(dstIP) == [] then InvalidIP
    else Made(Packet(1, 0x0800, |srcHW| % 256, |To4(srcIP)|, op, srcHW, To4(srcIP), dstHW, To4(dstIP)))
  }

  /** The packet is marshalled without a panic, and unmarshalled to itself. */
  predicate Survives(p: Packet) {
    RoundTrip(p);
    p.Size() <= 255 && Decode(Encode(p)) == p
  }

  /** A new packet survives the wire if and only if both hardware addresses have the same length, of at most 119
      bytes; every Ethernet address has six. */
  lemma NewPacketSurvives(op: Word, srcHW: seq<Byte>, srcIP: seq<Byte>, dstHW: seq<Byte>, dstIP: seq<Byte>)
    requires NewPacket(op, srcHW, srcIP, dstHW, dstIP).Made?
    ensures Survives(NewPacket(op, srcHW, srcIP, dstHW, dstIP).packet) <==> |srcHW| == |dstHW| <= 119
  {
    RoundTrip(NewPacket(op, srcHW, srcIP, dstHW, dstIP).packet);
  }

  /** The bytes stand for an IPv4 address. */
  predicate IsIPv4(ip: seq<Byte>) {
    AddrOf(ip).Some? && AddrOf(ip).value.fam == IPv4
  }

  lemma To4Same(ip: seq<Byte>)
    ensures IsIPv4(ip) <==> To4(ip) != []
    ensures IsIPv4(ip) ==> AddrOf(To4(ip)) == AddrOf(ip)
  {
  }

  /** A packet is made exactly for IPv4 addresses and hardware addresses of at least six bytes that have the same
      length or a broadcast target. */
  lemma NewPacketMade(op: Word, srcHW: seq<Byte>, srcIP: seq<Byte>, dstHW: seq<Byte>, dstIP: seq<Byte>)
    ensures NewPacket(op, srcHW, srcIP, dstHW, dstIP).Made? <==>
            && |srcHW| >= 6 && |dstHW| >= 6 && (|srcHW| == |dstHW| || dstHW == BROADCAST)
            && IsIPv4(srcIP) && IsIPv4(dstIP)
  {
    To4Same(srcIP);
    To4Same(dstIP);
  }

  lemma PartyIs(r: seq<Byte>, at: nat, hw: seq<Byte>, ip: seq<Byte>)
    requires Party(r, at, |hw|, |ip|, hw, ip)
    ensures r[at..at + |hw|] == hw && r[at + |hw|..at + |hw| + |ip|] == ip
  {
  }

  lemma NewFixedPart(r: seq<Byte>, p: Packet)
    requires FixedPart(r, p) && p.hardwareType == 1 && p.protocolType == 0x0800
    ensures r[..6] == [0, 1, 8, 0, p.hardwareAddrLength, p.ipLength]
  {
    WordBytes(1, r[0], r[1]);
    WordBytes(0x0800, r[2], r[3]);
  }

  lemma NewPacketFields(op: Word, srcHW: seq<Byte>, srcIP: seq<Byte>, dstHW: seq<Byte>, dstIP: seq<Byte>)
    requires NewPacket(op, srcHW, srcIP, dstHW, dstIP).Made? && |srcHW| == |dstHW| <= 119
    ensures var p := NewPacket(op, srcHW, srcIP, dstHW, dstIP).packet;
      && p.hardwareType == 1 && p.protocolType == 0x0800 && p.operation == op
      && p.hardwareAddrLength == |srcHW| && p.ipLength == 4 && |p.senderIP| == |p.targetIP| == 4
      && p.senderHardwareAddr == srcHW && AddrOf(p.senderIP) == AddrOf(srcIP)
      && p.targetHardwareAddr == dstHW && AddrOf(p.targetIP) == AddrOf(dstIP)
  {
    To4Same(srcIP);
    To4Same(dstIP);
  }

  /** From the caller's addresses to the wire: Ethernet and IPv4, the operation asked for, the source as the sender and
      the destination as the target. */
  lemma NewPacketOnWire(op: Word, srcHW: seq<Byte>, srcIP: seq<Byte>, dstHW: seq<Byte>, dstIP: seq<Byte>, r: seq<Byte>)
    requires NewPacket(op, srcHW, srcIP, dstHW, dstIP).Made? && |srcHW| == |dstHW| <= 119
    requires OnWire(r, NewPacket(op, srcHW, srcIP, dstHW, dstIP).packet)
    ensures var m := |srcHW|;
      && |r| == 16 + 2 * m && r[..6] == [0, 1, 8, 0, m, 4] && 256 * (r[6] as int) + r[7] as int == op
      && r[8..8 + m] == srcHW && AddrOf(r[8 + m..12 + m]) == AddrOf(srcIP)
      && r[12 + m..12 + 2 * m] == dstHW && AddrOf(r[12 + 2 * m..16 + 2 * m]) == AddrOf(dstIP)
  {
    var p := NewPacket(op, srcHW, srcIP, dstHW, dstIP).packet;
    NewPacketFields(op, srcHW, srcIP, dstHW, dstIP);
    NewFixedPart(r, p);
    PartyIs(r, 8, srcHW, p.senderIP);
    PartyIs(r, 12 + |srcHW|, dstHW, p.targetIP);
  }

  /** Two packets with the same wire form are the same, when their length fields are honest. */
  lemma EncodeInjective(p: Packet, q: Packet)
    requires p.Honest() && q.Honest() && Encode(p) == Encode(q)
    ensures p == q
  {
    RoundTrip(p);
    RoundTrip(q);
  }
}
