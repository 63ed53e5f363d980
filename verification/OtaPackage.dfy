/** The firmware package: where its payload is. */
module OtaPackage {
  import opened Wrappers
  import opened Bytes
  import Modbus

  datatype Endian = Little | Big

  datatype Located = Located(payload: seq<byte>, offset: nat, size: nat, sizeOrder: Endian, crcOrder: Endian)

  /** int.from_bytes. */
  function FromBytes(s: seq<byte>, order: Endian): nat {
    if s == [] then 0
    else match order
      case Little => s[0] as int + 0x100 * FromBytes(s[1..], order)
      case Big => 0x100 * FromBytes(s[..|s| - 1], order) + s[|s| - 1] as int
  }

  /** The bytes of the package from a up to b, as far as it goes. */
  function Slice(package: seq<byte>, a: nat, b: nat): seq<byte>
    requires a <= b
  {
    if b <= |package| then package[a..b] else if a <= |package| then package[a..] else []
  }

  /** The size declared at bytes 16 to 19. */
  function DeclaredSize(package: seq<byte>, order: Endian): nat { FromBytes(Slice(package, 16, 20), order) }

  /** The CRC stored at bytes 20 and 21. */
  function StoredCrc(package: seq<byte>, order: Endian): nat { FromBytes(Slice(package, 20, 22), order) }

  /** Read in these byte orders, the header describes the rest of the package: a non-empty payload behind
      the 22 bytes of the header, with the stored CRC. */
  predicate Describes(package: seq<byte>, sizeOrder: Endian, crcOrder: Endian)
  {
    var size := DeclaredSize(package, sizeOrder);
    && 0 < size && size + 22 <= |package|
    && StoredCrc(package, crcOrder) == Modbus.Crc(package[|package| - size..]) as int
  }

  /** The payload at the end of the package, of the declared size. */
  function Payload(package: seq<byte>, sizeOrder: Endian, crcOrder: Endian): Located
    requires Describes(package, sizeOrder, crcOrder)
  {
    var size := DeclaredSize(package, sizeOrder);
    Located(package[|package| - size..], |package| - size, size, sizeOrder, crcOrder)
  }

  /** The byte orders in the order in which they are tried. */
  function Rank(sizeOrder: Endian, crcOrder: Endian): nat {
    (if sizeOrder.Big? then 2 else 0) + (if crcOrder.Big? then 1 else 0)
  }

  /** r is the payload for the first byte orders that describe one, if any do. */
  predicate IsFirst(package: seq<byte>, r: Option<Located>)
  {
    match r
    case None => forall so, co :: !Describes(package, so, co)
    case Some(l) =>
      && Describes(package, l.sizeOrder, l.crcOrder)
      && l == Payload(package, l.sizeOrder, l.crcOrder)
      && forall so, co :: Describes(package, so, co) ==> Rank(l.sizeOrder, l.crcOrder) <= Rank(so, co)
  }

  /** All descriptions of rank below n were tried, and their payloads kept in order. */
  predicate Collected(package: seq<byte>, matches: seq<Located>, n: nat)
  {
    && (matches == [] ==> forall so, co :: Rank(so, co) < n ==> !Describes(package, so, co))
    && (matches != [] ==> IsFirst(package, Some(matches[0])))
  }

  const ORDERS: seq<Endian> := [Little, Big]

  /** locate_firmware_payload. */
  method LocateFirmwarePayload(package: seq<byte>) returns (r: Option<Located>)
    ensures IsFirst(package, r)
  {
    hide Modbus.Crc, StoredCrc, DeclaredSize;
    var matches: seq<Located> := [];
    for i := 0 to 2
      invariant Collected(package, matches, 2 * i)
    {
      var sizeOrder := ORDERS[i];
      var declared := DeclaredSize(package, sizeOrder);
      if declared == 0 || declared > |package| { continue; }
      var offset := |package| - declared;
      if offset < 22 { continue; }
      var payload := package[offset..];
      var computed := Modbus.ModbusCrc16(payload);
      for k := 0 to 2
        invariant Collected(package, matches, 2 * i + k)
      {
        var crcOrder := ORDERS[k];
        if StoredCrc(package, crcOrder) == computed as int {
          assert Describes(package, sizeOrder, crcOrder);
          matches := matches + [Located(payload, offset, declared, sizeOrder, crcOrder)];
        }
      }
    }
    return if matches != [] then Some(matches[0]) else None;
  }

  // ---- packages that are well made ---------------------------------------------------------------------

  /** A number below 2^32 in four bytes, and one below 2^16 in two. */
  function Bytes4(n: nat, order: Endian): (s: seq<byte>)
    requires n < 0x1_0000_0000
    ensures |s| == 4
  {
    var a, b := BigEndian(n / 0x1_0000), BigEndian(n % 0x1_0000);
    match order case Big => [a[0], a[1], b[0], b[1]] case Little => [b[1], b[0], a[1], a[0]]
  }

  function Bytes2(n: nat, order: Endian): (s: seq<byte>)
    requires n < 0x1_0000
    ensures |s| == 2
  {
    var a := BigEndian(n);
    match order case Big => [a[0], a[1]] case Little => [a[1], a[0]]
  }

  lemma FromTwo(s: seq<byte>, order: Endian)
    requires |s| == 2
    ensures FromBytes(s, order) == match order case Big => U16(s[0], s[1]) case Little => U16(s[1], s[0])
  {
    assert FromBytes(s[1..][1..], order) == 0 && FromBytes(s[..1][..0], order) == 0;
  }

  lemma FromFour(s: seq<byte>, order: Endian)
    requires |s| == 4
    ensures FromBytes(s, order) == match order
              case Big => 0x1_0000 * U16(s[0], s[1]) + U16(s[2], s[3])
              case Little => U16(s[1], s[0]) + 0x1_0000 * U16(s[3], s[2])
  {
    match order {
      case Big =>
        FromTwo(s[..2], order);
        assert s[..3][..2] == s[..2];
      case Little =>
        FromTwo(s[2..], order);
        assert s[1..][1..] == s[2..];
    }
  }

  lemma FromBytes4(n: nat, order: Endian)
    requires n < 0x1_0000_0000
    ensures FromBytes(Bytes4(n, order), order) == n
  {
    hide BigEndian, U16, FromBytes;
    FromFour(Bytes4(n, order), order);
    DecodeEncode(n / 0x1_0000);
    DecodeEncode(n % 0x1_0000);
  }

  lemma FromBytes2(n: nat, order: Endian)
    requires n < 0x1_0000
    ensures FromBytes(Bytes2(n, order), order) == n
  {
    hide BigEndian, U16, FromBytes;
    FromTwo(Bytes2(n, order), order);
    DecodeEncode(n);
  }

  lemma CrcBound(payload: seq<byte>)
    ensures 0 <= Modbus.Crc(payload) as int < 0x1_0000
  {
    hide Modbus.Crc;
    WordBound(Modbus.Crc(payload));
  }

  lemma WordBound(w: bv16)
    ensures 0 <= w as int < 0x1_0000
  {}

  /** A package as its maker lays it out: identity, size and CRC of the payload in some byte orders, anything, and
      the payload at the end. */
  function Package(identity: seq<byte>, sizeOrder: Endian, crcOrder: Endian, more: seq<byte>, payload: seq<byte>)
    : (package: seq<byte>)
    requires |identity| == 16 && |payload| < 0x1_0000_0000
    ensures |package| == 22 + |more| + |payload|
  {
    CrcBound(payload);
    identity + Bytes4(|payload|, sizeOrder) + Bytes2(Modbus.Crc(payload) as int, crcOrder) + more + payload
  }

  /** It is located: by these byte orders, with exactly its payload, unless an earlier pair of byte orders happens
      to describe the package too. */
  lemma PackageIsLocated(identity: seq<byte>, sizeOrder: Endian, crcOrder: Endian, more: seq<byte>,
                         payload: seq<byte>, r: Option<Located>)
    requires |identity| == 16 && 0 < |payload| < 0x1_0000_0000
    requires IsFirst(Package(identity, sizeOrder, crcOrder, more, payload), r)
    ensures r.Some?
    ensures r.value.sizeOrder == sizeOrder && r.value.crcOrder == crcOrder ==>
              r.value == Located(payload, 22 + |more|, |payload|, sizeOrder, crcOrder)
    ensures Rank(r.value.sizeOrder, r.value.crcOrder) <= Rank(sizeOrder, crcOrder)
  {
    hide Modbus.Crc, Bytes4, Bytes2, FromBytes;
    var package := Package(identity, sizeOrder, crcOrder, more, payload);
    CrcBound(payload);
    var crc := Modbus.Crc(payload) as int;
    FromBytes4(|payload|, sizeOrder);
    FromBytes2(crc, crcOrder);
    assert package[16..20] == Bytes4(|payload|, sizeOrder);
    assert package[20..22] == Bytes2(crc, crcOrder);
    assert package[|package| - |payload|..] == payload;
    assert Describes(package, sizeOrder, crcOrder);
  }
}
