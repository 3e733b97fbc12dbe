/**
 Whole SNMP v2c responses of the simulator (nexus/perf/src/main.rs): the encoder
 and, as its partner, a decoder written from X.690 sections 8.1.3, 8.3 and 8.19
 and from section 3 of RFC 3416.
 */
module Response {
  import opened Options
  import opened Ber

  // ---- The encoding ---------------------------------------------------------------

  function Tlv(tag: byte, content: Bytes): Bytes {
    [tag] + BerLen(|content|) + content
  }

  // The first two components share a sub-identifier; u64 arithmetic wraps.
  function FirstSubid(oid: Oid): u64 {
    if |oid| >= 2 then (40 * oid[0] + oid[1]) % BASE64 else if |oid| == 1 then oid[0] else 0
  }

  function LaterSubids(oid: Oid): Oid {
    if |oid| >= 2 then oid[2..] else []
  }

  function SubidBytes(ids: Oid): Bytes {
    if ids == [] then [] else Base128(ids[0]) + SubidBytes(ids[1..])
  }

  function OidContent(oid: Oid): Bytes {
    SubidBytes([FirstSubid(oid)] + LaterSubids(oid))
  }

  lemma SubidStep(out: Bytes, ids: Oid, i: nat)
    requires i < |ids|
    ensures out + SubidBytes(ids[i..]) == out + Base128(ids[i]) + SubidBytes(ids[i + 1..])
  {
    assert ids[i..][1..] == ids[i + 1..];
    assert SubidBytes(ids[i..]) == Base128(ids[i]) + SubidBytes(ids[i + 1..]);
  }

  method EncOidContent(oid: Oid) returns (out: Bytes)
    ensures out == OidContent(oid)
  {
    var first, ids := FirstSubid(oid), LaterSubids(oid);
    SubidStep([], [first] + ids, 0);
    assert ([first] + ids)[0..] == [first] + ids && ([first] + ids)[1..] == ids;
    out := EncodeBase128(first, []);
    for i := 0 to |ids|
      invariant out + SubidBytes(ids[i..]) == OidContent(oid)
    {
      SubidStep(out, ids, i);
      out := EncodeBase128(ids[i], out);
    }
  }

  function ValueBytes(v: Value): Bytes {
    match v
    case Integer(n) => IntegerBytes(n)
    case OctetString(b) => Tlv(0x04, b)
    case Counter32(n) => Tlv(0x41, EncUintContent(n))
    case Gauge32(n) => Tlv(0x42, EncUintContent(n))
    case Counter64(n) => Tlv(0x46, EncUintContent(n))
    case EndOfMibView => [0x82, 0x00]
  }

  method EncValue(v: Value) returns (out: Bytes)
    ensures out == ValueBytes(v)
  {
    match v {
      case Integer(n) =>
        out := EncInteger(n);
      case OctetString(b) => out := Tlv(0x04, b);
      case Counter32(n) => out := Tlv(0x41, EncUintContent(n));
      case Gauge32(n) => out := Tlv(0x42, EncUintContent(n));
      case Counter64(n) => out := Tlv(0x46, EncUintContent(n));
      case EndOfMibView => out := [0x82, 0x00];
    }
  }

  function VarbindContent(vb: Varbind): Bytes {
    Tlv(0x06, OidContent(vb.oid)) + ValueBytes(vb.value)
  }

  function VarbindBytes(vbs: seq<Varbind>): Bytes {
    if vbs == [] then [] else Tlv(0x30, VarbindContent(vbs[0])) + VarbindBytes(vbs[1..])
  }

  method EncVarbind(vb: Varbind) returns (out: Bytes)
    ensures out == Tlv(0x30, VarbindContent(vb))
  {
    var oid := EncOidContent(vb.oid);
    var value := EncValue(vb.value);
    out := Tlv(0x30, Tlv(0x06, oid) + value);
  }

  function IntegerBytes(n: i64): Bytes {
    Tlv(0x02, TwosComplement(n))
  }

  function PduContent(reqId: i32, vbs: seq<Varbind>): Bytes {
    IntegerBytes(reqId) + IntegerBytes(0) + IntegerBytes(0) +
    Tlv(0x30, VarbindBytes(vbs))
  }

  function MessageContent(community: Bytes, reqId: i32, vbs: seq<Varbind>): Bytes {
    IntegerBytes(1) + Tlv(0x04, community) + Tlv(0xa2, PduContent(reqId, vbs))
  }

  function MessageBytes(community: Bytes, reqId: i32, vbs: seq<Varbind>): Bytes {
    Tlv(0x30, MessageContent(community, reqId, vbs))
  }

  method EncInteger(n: i64) returns (out: Bytes)
    ensures out == IntegerBytes(n)
  {
    var content := EncIntContent(n);
    out := Tlv(0x02, content);
  }

  lemma VarbindStep(list: Bytes, vbs: seq<Varbind>, i: nat)
    requires i < |vbs|
    ensures list + VarbindBytes(vbs[i..]) ==
            list + Tlv(0x30, VarbindContent(vbs[i])) + VarbindBytes(vbs[i + 1..])
  {
    assert vbs[i..][1..] == vbs[i + 1..];
    assert VarbindBytes(vbs[i..]) == Tlv(0x30, VarbindContent(vbs[i])) + VarbindBytes(vbs[i + 1..]);
  }

  method BuildResponse(community: Bytes, reqId: i32, vbs: seq<Varbind>) returns (out: Bytes)
    ensures out == MessageBytes(community, reqId, vbs)
  {
    hide BerLen, TwosComplement;
    var list: Bytes := [];
    for i := 0 to |vbs|
      invariant list + VarbindBytes(vbs[i..]) == VarbindBytes(vbs)
    {
      VarbindStep(list, vbs, i);
      var vb := EncVarbind(vbs[i]);
      list := list + vb;
    }
    assert vbs[|vbs|..] == [];
    var id := EncInteger(reqId);
    var status := EncInteger(0);
    var index := EncInteger(0);
    var pdu := id + status + index + Tlv(0x30, list);
    assert pdu == PduContent(reqId, vbs);
    var version := EncInteger(1);
    var msg := version + Tlv(0x04, community) + Tlv(0xa2, pdu);
    assert msg == MessageContent(community, reqId, vbs);
    out := Tlv(0x30, msg);
  }

  // ---- The decoder ------------------------------------------------------------------

  datatype Element = Element(tag: byte, content: Bytes, rest: Bytes)

  // One element in definite form, with short or long length octets.
  function ReadTlv(b: Bytes): (r: Option<Element>)
    ensures r.Some? ==> |r.value.rest| < |b|
  {
    if |b| < 2 then None
    else if b[1] < 128 then
      var len := b[1] as int;
      if 2 + len > |b| then None else Some(Element(b[0], b[2..2 + len], b[2 + len..]))
    else
      var octets := b[1] as int - 128;
      if octets == 0 || 2 + octets > |b| then None
      else
        var len := Natural(b[2..2 + octets]);
        if 2 + octets + len > |b| then None
        else Some(Element(b[0], b[2 + octets..2 + octets + len], b[2 + octets + len..]))
  }

  function ReadTagged(b: Bytes, tag: byte): (r: Option<Element>)
    ensures r.Some? ==> |r.value.rest| < |b|
  {
    var e :- ReadTlv(b);
    if e.tag == tag then Some(e) else None
  }

  // The position of the first unmarked octet, |b| if there is none.
  function UnmarkedAt(b: Bytes): (r: nat)
    ensures r <= |b|
  {
    if b == [] || b[0] < 128 then 0 else 1 + UnmarkedAt(b[1..])
  }

  function FromSeptets(b: Bytes): nat {
    if b == [] then 0 else 128 * FromSeptets(b[..|b| - 1]) + b[|b| - 1] as int % 128
  }

  // Section 8.19.2 of X.690; a sub-identifier may not start with 0x80.
  function ReadSubids(b: Bytes): Option<seq<nat>>
    decreases |b|
  {
    if b == [] then Some([])
    else
      var last := UnmarkedAt(b);
      if last == |b| || b[0] == 128 then None
      else
        var later :- ReadSubids(b[last + 1..]);
        Some([FromSeptets(b[..last + 1])] + later)
  }

  function SplitFirst(subid: nat): seq<nat> {
    if subid < 40 then [0, subid] else if subid < 80 then [1, subid - 40] else [2, subid - 80]
  }

  function ReadOid(content: Bytes): Option<Oid> {
    var ids :- ReadSubids(content);
    if ids == [] || exists i :: 0 <= i < |ids| && ids[i] >= BASE64 then None
    else
      var first: Oid, later: Oid := SplitFirst(ids[0]), ids[1..];
      Some(first + later)
  }

  function ReadInteger(content: Bytes): Option<int> {
    if content == [] then None else Some(Signed(content))
  }

  function ReadValue(tag: byte, content: Bytes): Option<Value> {
    if tag == 0x04 then Some(OctetString(content))
    else if tag == 0x82 then (if content == [] then Some(EndOfMibView) else None)
    else
      var n :- ReadInteger(content);
      if tag == 0x02 && -0x8000_0000_0000_0000 <= n < 0x8000_0000_0000_0000 then Some(Integer(n))
      else if tag == 0x41 && 0 <= n < 0x1_0000_0000 then Some(Counter32(n))
      else if tag == 0x42 && 0 <= n < 0x1_0000_0000 then Some(Gauge32(n))
      else if tag == 0x46 && 0 <= n < BASE64 then Some(Counter64(n))
      else None
  }

  function ReadVarbind(content: Bytes): Option<Varbind> {
    var name :- ReadTagged(content, 0x06);
    var oid :- ReadOid(name.content);
    var value :- ReadTlv(name.rest);
    var v :- ReadValue(value.tag, value.content);
    if value.rest == [] then Some(Varbind(oid, v)) else None
  }

  function ReadVarbinds(b: Bytes): Option<seq<Varbind>>
    decreases |b|
  {
    if b == [] then Some([])
    else
      var e :- ReadTagged(b, 0x30);
      var vb :- ReadVarbind(e.content);
      var later :- ReadVarbinds(e.rest);
      Some([vb] + later)
  }

  datatype Message = Message(community: Bytes, reqId: int, errorStatus: int, errorIndex: int, varbinds: seq<Varbind>)

  function ReadPdu(community: Bytes, content: Bytes): Option<Message> {
    var id :- ReadTagged(content, 0x02);
    var status :- ReadTagged(id.rest, 0x02);
    var index :- ReadTagged(status.rest, 0x02);
    var list :- ReadTagged(index.rest, 0x30);
    var reqId :- ReadInteger(id.content);
    var errorStatus :- ReadInteger(status.content);
    var errorIndex :- ReadInteger(index.content);
    var vbs :- ReadVarbinds(list.content);
    if list.rest == [] then Some(Message(community, reqId, errorStatus, errorIndex, vbs)) else None
  }

  // A v2c message holding a Response PDU, and nothing after it.
  function ReadMessage(b: Bytes): Option<Message> {
    var msg :- ReadTagged(b, 0x30);
    var version :- ReadTagged(msg.content, 0x02);
    var v :- ReadInteger(version.content);
    var community :- ReadTagged(version.rest, 0x04);
    var pdu :- ReadTagged(community.rest, 0xa2);
    if msg.rest == [] && pdu.rest == [] && v == 1 then ReadPdu(community.content, pdu.content) else None
  }

  // ---- The decoder undoes the encoder ---------------------------------------------------

  lemma TlvReads(tag: byte, content: Bytes, rest: Bytes)
    requires |content| < BASE64
    ensures ReadTlv(Tlv(tag, content) + rest) == Some(Element(tag, content, rest))
  {
    var len := |content|;
    var b := Tlv(tag, content) + rest;
    BerLenShortest(len);
    if len < 128 {
      assert b[2..2 + len] == content && b[2 + len..] == rest;
    } else {
      DigitsDecode(len);
      assert Digits(len) != [];
      hide Digits, Natural, ReadTlv;
      LongTlvReads(tag, Digits(len), content, rest);
    }
  }

  lemma LongTlvReads(tag: byte, digits: Bytes, content: Bytes, rest: Bytes)
    requires 1 <= |digits| <= 8 && Natural(digits) == |content|
    ensures ReadTlv([tag] + ([(128 + |digits|) as byte] + digits) + content + rest) == Some(Element(tag, content, rest))
  {
    hide Natural;
    var len, k := |content|, |digits|;
    var b := [tag] + ([(128 + k) as byte] + digits) + content + rest;
    assert b[1] == (128 + k) as byte;
    assert b[2..2 + k] == digits;
    assert b[2 + k..2 + k + len] == content && b[2 + k + len..] == rest;
  }

  lemma TlvReadsWhole(tag: byte, content: Bytes)
    requires |content| < BASE64
    ensures ReadTlv(Tlv(tag, content)) == Some(Element(tag, content, []))
  {
    TlvReads(tag, content, []);
    assert Tlv(tag, content) + [] == Tlv(tag, content);
  }

  lemma {:induction false} SeptetsMarked(v: nat)
    ensures forall i :: 0 <= i < |Septets(v)| ==> Septets(v)[i] >= 128
    ensures v > 0 ==> |Septets(v)| > 0 && Septets(v)[0] != 128
    ensures FromSeptets(Septets(v)) == v
  {
    if v >= 128 {
      SeptetsMarked(v / 128);
      assert Septets(v)[..|Septets(v)| - 1] == Septets(v / 128);
    } else {
      assert Septets(v)[..0] == [];
    }
  }

  lemma {:induction false} UnmarkedAfter(marked: Bytes, last: byte, rest: Bytes)
    requires forall i :: 0 <= i < |marked| ==> marked[i] >= 128
    requires last < 128
    ensures UnmarkedAt(marked + [last] + rest) == |marked|
  {
    var b := marked + [last] + rest;
    if marked != [] {
      UnmarkedAfter(marked[1..], last, rest);
      assert b[1..] == marked[1..] + [last] + rest;
    }
  }

  // Section 8.19.2 of X.690: no leading 0x80 octet, and seven bits an octet
  // suffice to read the value back.
  lemma Base128Reads(v: nat, rest: Bytes)
    ensures var b := Base128(v) + rest;
      && b[0] != 128
      && UnmarkedAt(b) == |Base128(v)| - 1
      && FromSeptets(Base128(v)) == v
  {
    var marked := if v < 128 then [] else Septets(v / 128);
    var last := (v % 128) as byte;
    SeptetsMarked(v / 128);
    assert Base128(v) == marked + [last];
    assert Base128(v)[..|marked|] == marked;
    UnmarkedAfter(marked, last, rest);
  }

  lemma {:induction false} SubidsRead(ids: Oid)
    ensures ReadSubids(SubidBytes(ids)) == Some(ids)
  {
    if ids != [] {
      var first, later := Base128(ids[0]), SubidBytes(ids[1..]);
      Base128Reads(ids[0], later);
      SubidsRead(ids[1..]);
      var b := first + later;
      assert b[..|first|] == first && b[|first|..] == later;
      assert [ids[0]] + ids[1..] == ids;
    }
  }

  // The name a reader sees: the wrapped first sub-identifier, split again.
  function ReadBack(oid: Oid): Oid {
    SplitFirst(FirstSubid(oid)) + LaterSubids(oid)
  }

  lemma OidReads(oid: Oid)
    ensures ReadOid(OidContent(oid)) == Some(ReadBack(oid))
  {
    SubidsRead([FirstSubid(oid)] + LaterSubids(oid));
  }

  // Object identifiers proper (section 8.19.4 of X.690): two components at
  // least, the second below 40 under the first two arcs, no 64-bit overflow.
  predicate ValidOid(oid: Oid) {
    && |oid| >= 2
    && (oid[0] == 2 || (oid[0] < 2 && oid[1] < 40))
    && 40 * oid[0] + oid[1] < BASE64
  }

  lemma FirstTwoReadBack(a: u64, b: u64)
    ensures SplitFirst((40 * a + b) % BASE64) == [a, b] <==>
            (a == 2 || (a < 2 && b < 40)) && 40 * a + b < BASE64
  {
  }

  lemma OidRoundTripsIffValid(oid: Oid)
    ensures ReadOid(OidContent(oid)) == Some(oid) <==> ValidOid(oid)
  {
    OidReads(oid);
    if |oid| >= 2 {
      FirstTwoReadBack(oid[0], oid[1]);
      var first := SplitFirst(FirstSubid(oid));
      assert oid == [oid[0], oid[1]] + oid[2..];
      assert ReadBack(oid) == first + oid[2..];
      assert ReadBack(oid)[..2] == first && oid[..2] == [oid[0], oid[1]];
    }
  }

  // Under the first arc a second component from 40 to 79 spills into the second arc:
  // 0.40 and 1.0 have one encoding, and it reads as 1.0.
  lemma ImproperNameChanges(b: u64, rest: Oid)
    requires 40 <= b < 80
    ensures var improper, proper := [0, b] + rest, [1, b - 40] + rest;
      && !ValidOid(improper) && ValidOid(proper)
      && OidContent(improper) == OidContent(proper) && ReadOid(OidContent(improper)) == Some(proper)
  {
    hide ReadOid, SubidBytes;
    var improper: Oid, proper: Oid := [0, b] + rest, [1, b - 40] + rest;
    assert LaterSubids(improper) == rest == LaterSubids(proper);
    OidReads(improper);
    assert ReadBack(improper) == [1, b - 40] + rest;
  }

  lemma IntegerReads(n: i64, rest: Bytes)
    requires |IntegerBytes(n)| < BASE64
    ensures ReadTlv(IntegerBytes(n) + rest) == Some(Element(0x02, TwosComplement(n), rest))
    ensures ReadInteger(TwosComplement(n)) == Some(n)
  {
    TwosComplementDecodes(n);
    TlvReads(0x02, TwosComplement(n), rest);
  }

  // The bytes are one element, and that element holds the value.
  predicate Holds(b: Bytes, v: Value) {
    var e := ReadTlv(b);
    e.Some? && e.value.rest == [] && ReadValue(e.value.tag, e.value.content) == Some(v)
  }

  lemma UnsignedHolds(tag: byte, n: u64, v: Value)
    requires |Tlv(tag, EncUintContent(n))| < BASE64
    requires ReadInteger(EncUintContent(n)) == Some(n) ==> ReadValue(tag, EncUintContent(n)) == Some(v)
    ensures Holds(Tlv(tag, EncUintContent(n)), v)
  {
    EncUintContentCanonical(n);
    TlvReadsWhole(tag, EncUintContent(n));
  }

  lemma IntegerHolds(n: i64)
    requires |IntegerBytes(n)| < BASE64
    ensures Holds(IntegerBytes(n), Integer(n))
  {
    IntegerReads(n, []);
    assert IntegerBytes(n) + [] == IntegerBytes(n);
  }

  lemma OctetsHold(b: Bytes)
    requires |Tlv(0x04, b)| < BASE64
    ensures Holds(Tlv(0x04, b), OctetString(b))
  {
    TlvReadsWhole(0x04, b);
  }

  lemma EndOfMibViewHolds()
    ensures Holds(ValueBytes(EndOfMibView), EndOfMibView)
  {
    var b := ValueBytes(EndOfMibView);
    assert |b| == 2 && b[0] == 0x82 && b[1] == 0;
    assert b[2..2] == [] && b[2..] == [];
  }

  lemma Counter32Holds(n: u32)
    requires |ValueBytes(Counter32(n))| < BASE64
    ensures Holds(ValueBytes(Counter32(n)), Counter32(n))
  {
    UnsignedHolds(0x41, n, Counter32(n));
  }

  lemma Gauge32Holds(n: u32)
    requires |ValueBytes(Gauge32(n))| < BASE64
    ensures Holds(ValueBytes(Gauge32(n)), Gauge32(n))
  {
    UnsignedHolds(0x42, n, Gauge32(n));
  }

  lemma Counter64Holds(n: u64)
    requires |ValueBytes(Counter64(n))| < BASE64
    ensures Holds(ValueBytes(Counter64(n)), Counter64(n))
  {
    UnsignedHolds(0x46, n, Counter64(n));
  }

  lemma ValueReads(v: Value)
    requires |ValueBytes(v)| < BASE64
    ensures Holds(ValueBytes(v), v)
  {
    hide Holds, Tlv, EncUintContent, TwosComplement;
    match v
    case Integer(n) => IntegerHolds(n);
    case OctetString(b) => OctetsHold(b);
    case Counter32(n) => Counter32Holds(n);
    case Gauge32(n) => Gauge32Holds(n);
    case Counter64(n) => Counter64Holds(n);
    case EndOfMibView => EndOfMibViewHolds();
  }

  lemma VarbindReads(vb: Varbind)
    requires |VarbindContent(vb)| < BASE64
    ensures ReadVarbind(VarbindContent(vb)) == Some(Varbind(ReadBack(vb.oid), vb.value))
  {
    TlvReads(0x06, OidContent(vb.oid), ValueBytes(vb.value));
    OidReads(vb.oid);
    ValueReads(vb.value);
  }

  function ReadBackAll(vbs: seq<Varbind>): (r: seq<Varbind>)
    ensures |r| == |vbs|
    ensures forall i :: 0 <= i < |vbs| ==> r[i] == Varbind(ReadBack(vbs[i].oid), vbs[i].value)
  {
    if vbs == [] then [] else [Varbind(ReadBack(vbs[0].oid), vbs[0].value)] + ReadBackAll(vbs[1..])
  }

  lemma {:induction false} VarbindsRead(vbs: seq<Varbind>)
    requires |VarbindBytes(vbs)| < BASE64
    ensures ReadVarbinds(VarbindBytes(vbs)) == Some(ReadBackAll(vbs))
  {
    if vbs != [] {
      TlvReads(0x30, VarbindContent(vbs[0]), VarbindBytes(vbs[1..]));
      VarbindReads(vbs[0]);
      VarbindsRead(vbs[1..]);
    }
  }

  lemma Regroup3(a: Bytes, b: Bytes, c: Bytes)
    ensures a + b + c == a + (b + c)
  {
  }

  lemma Regroup4(a: Bytes, b: Bytes, c: Bytes, d: Bytes)
    ensures a + b + c + d == a + (b + (c + d))
  {
  }

  // What ReadPdu answers once its four fields have been read.
  lemma PduFromFields(community: Bytes, content: Bytes, id: Element, status: Element, index: Element, list: Element)
    requires ReadTagged(content, 0x02) == Some(id) && id.content != []
    requires ReadTagged(id.rest, 0x02) == Some(status) && status.content != []
    requires ReadTagged(status.rest, 0x02) == Some(index) && index.content != []
    requires ReadTagged(index.rest, 0x30) == Some(list) && list.rest == []
    requires ReadVarbinds(list.content).Some?
    ensures ReadPdu(community, content) ==
            Some(Message(community, Signed(id.content), Signed(status.content), Signed(index.content),
                         ReadVarbinds(list.content).value))
  {
  }

  lemma PduReads(community: Bytes, reqId: i32, vbs: seq<Varbind>)
    requires |PduContent(reqId, vbs)| < BASE64
    ensures ReadPdu(community, PduContent(reqId, vbs)) == Some(Message(community, reqId, 0, 0, ReadBackAll(vbs)))
  {
    var vbBytes, zero := VarbindBytes(vbs), TwosComplement(0);
    var list := Tlv(0x30, vbBytes);
    var fromIndex := IntegerBytes(0) + list;
    var fromStatus := IntegerBytes(0) + fromIndex;
    Regroup4(IntegerBytes(reqId), IntegerBytes(0), IntegerBytes(0), list);
    IntegerReads(reqId, fromStatus);
    IntegerReads(0, fromIndex);
    IntegerReads(0, list);
    TlvReadsWhole(0x30, vbBytes);
    VarbindsRead(vbs);
    PduFromFields(community, PduContent(reqId, vbs), Element(0x02, TwosComplement(reqId), fromStatus),
                  Element(0x02, zero, fromIndex), Element(0x02, zero, list), Element(0x30, vbBytes, []));
  }

  // Any message that fits a 64-bit address space reads back as the community,
  // the request id, no error, and the varbinds under the names a reader sees.
  lemma MessageReads(community: Bytes, reqId: i32, vbs: seq<Varbind>)
    requires |MessageBytes(community, reqId, vbs)| < BASE64
    ensures ReadMessage(MessageBytes(community, reqId, vbs)) ==
            Some(Message(community, reqId, 0, 0, ReadBackAll(vbs)))
  {
    var pdu := Tlv(0xa2, PduContent(reqId, vbs));
    var msg := MessageContent(community, reqId, vbs);
    Regroup3(IntegerBytes(1), Tlv(0x04, community), pdu);
    IntegerReads(1, Tlv(0x04, community) + pdu);
    TlvReads(0x04, community, pdu);
    TlvReadsWhole(0x30, msg);
    TlvReadsWhole(0xa2, PduContent(reqId, vbs));
    PduReads(community, reqId, vbs);
  }

  // The decoder recovers exactly what was encoded if and only if every name is
  // a proper object identifier.
  lemma RoundTripIffValid(community: Bytes, reqId: i32, vbs: seq<Varbind>)
    requires |MessageBytes(community, reqId, vbs)| < BASE64
    ensures ReadMessage(MessageBytes(community, reqId, vbs)) == Some(Message(community, reqId, 0, 0, vbs)) <==>
            forall i :: 0 <= i < |vbs| ==> ValidOid(vbs[i].oid)
  {
    MessageReads(community, reqId, vbs);
    forall i | 0 <= i < |vbs| ensures ReadBack(vbs[i].oid) == vbs[i].oid <==> ValidOid(vbs[i].oid) {
      OidReads(vbs[i].oid);
      OidRoundTripsIffValid(vbs[i].oid);
    }
    if ReadBackAll(vbs) == vbs {
      forall i | 0 <= i < |vbs| ensures ValidOid(vbs[i].oid) {
        assert ReadBackAll(vbs)[i] == vbs[i];
      }
    }
    if forall i :: 0 <= i < |vbs| ==> ValidOid(vbs[i].oid) {
      assert ReadBackAll(vbs) == vbs;
    }
  }

  // So no two different responses share an encoding, not even across value types.
  lemma EncodingInjective(c: Bytes, id: i32, vbs: seq<Varbind>, c': Bytes, id': i32, vbs': seq<Varbind>)
    requires |MessageBytes(c, id, vbs)| < BASE64
    requires forall i :: 0 <= i < |vbs| ==> ValidOid(vbs[i].oid)
    requires forall i :: 0 <= i < |vbs'| ==> ValidOid(vbs'[i].oid)
    requires MessageBytes(c, id, vbs) == MessageBytes(c', id', vbs')
    ensures c == c' && id == id' && vbs == vbs'
  {
    RoundTripIffValid(c, id, vbs);
    RoundTripIffValid(c', id', vbs');
  }
}
