/**
 NASDAQ TotalView-ITCH 5.0: the four order messages, their packed layouts, the two-byte
 length framing, and the parser's cursor over a byte stream. Layouts follow the sections
 "Add Order - No MPID Attribution", "Order Executed", "Order Cancel" and "Order Delete".
 */
module Itch {
  import opened Types
  import opened Wire

  datatype Header = Header(locate: nat, tracking: nat, timestamp: nat)

  datatype ItchMsg =
    | AddOrder(h: Header, ref: nat, side: Byte, shares: nat, stock: seq<Byte>, price: nat)
    | OrderExecuted(h: Header, ref: nat, shares: nat, matchNumber: nat)
    | OrderCancel(h: Header, ref: nat, shares: nat)
    | OrderDelete(h: Header, ref: nat)

  // Character codes of the type byte.
  const ADD: Byte := 65       // 'A'
  const EXECUTED: Byte := 69  // 'E'
  const CANCEL: Byte := 88    // 'X'
  const DELETE: Byte := 68    // 'D'

  predicate Fits(v: nat, bytes: nat) {
    v < Pow256(bytes)
  }

  // Every field fits its width on the wire.
  predicate WellFormed(m: ItchMsg) {
    && Fits(m.h.locate, 2) && Fits(m.h.tracking, 2) && Fits(m.h.timestamp, 6) && Fits(m.ref, 8)
    && match m
       case AddOrder(_, _, _, shares, stock, price) => Fits(shares, 4) && |stock| == 8 && Fits(price, 4)
       case OrderExecuted(_, _, shares, matchNumber) => Fits(shares, 4) && Fits(matchNumber, 8)
       case OrderCancel(_, _, shares) => Fits(shares, 4)
       case OrderDelete(_, _) => true
  }

  // ---- encoding --------------------------------------------------------------------------------

  // Type byte, header and order reference: the 19 bytes common to all four messages.
  function Prefix(kind: Byte, h: Header, ref: nat): (s: seq<Byte>)
    ensures |s| == 19
  {
    [kind] + BigEndian(h.locate, 2) + BigEndian(h.tracking, 2) + BigEndian(h.timestamp, 6) + BigEndian(ref, 8)
  }

  function Body(m: ItchMsg): seq<Byte> {
    match m
    case AddOrder(_, _, side, shares, stock, price) => [side] + BigEndian(shares, 4) + stock + BigEndian(price, 4)
    case OrderExecuted(_, _, shares, matchNumber) => BigEndian(shares, 4) + BigEndian(matchNumber, 8)
    case OrderCancel(_, _, shares) => BigEndian(shares, 4)
    case OrderDelete(_, _) => []
  }

  function Kind(m: ItchMsg): Byte {
    match m
    case AddOrder(_, _, _, _, _, _) => ADD
    case OrderExecuted(_, _, _, _) => EXECUTED
    case OrderCancel(_, _, _) => CANCEL
    case OrderDelete(_, _) => DELETE
  }

  function Payload(m: ItchMsg): seq<Byte> {
    Prefix(Kind(m), m.h, m.ref) + Body(m)
  }

  // Payload length behind its two-byte big-endian length.
  function Frame(m: ItchMsg): seq<Byte> {
    BigEndian(|Payload(m)|, 2) + Payload(m)
  }

  function Stream(ms: seq<ItchMsg>): seq<Byte> {
    if ms == [] then [] else Frame(ms[0]) + Stream(ms[1..])
  }

  // ---- decoding -----------------------------------------------------------------------------------

  // Big-endian field of `n` bytes at an offset of the overlaid struct.
  function Field(p: seq<Byte>, at: nat, n: nat): nat
    requires at + n <= |p|
  {
    Value(p[at..at + n])
  }

  function HeaderOf(p: seq<Byte>): Header
    requires |p| >= 11
  {
    Header(Field(p, 1, 2), Field(p, 3, 2), Field(p, 5, 6))
  }

  // Overlay the struct the type byte names; no arm accepts another length.
  function DecodePayload(p: seq<Byte>): Option<ItchMsg> {
    if p == [] then None
    else if p[0] == ADD then
      if |p| != 36 then None
      else Some(AddOrder(HeaderOf(p), Field(p, 11, 8), p[19], Field(p, 20, 4), p[24..32], Field(p, 32, 4)))
    else if p[0] == EXECUTED then
      if |p| != 31 then None
      else Some(OrderExecuted(HeaderOf(p), Field(p, 11, 8), Field(p, 19, 4), Field(p, 23, 8)))
    else if p[0] == CANCEL then
      if |p| != 23 then None
      else Some(OrderCancel(HeaderOf(p), Field(p, 11, 8), Field(p, 19, 4)))
    else if p[0] == DELETE then
      if |p| != 19 then None
      else Some(OrderDelete(HeaderOf(p), Field(p, 11, 8)))
    else None
  }

  // One call of the parser on the unread bytes: the message and the bytes consumed.
  function ParseOne(rest: seq<Byte>): (r: Option<(ItchMsg, nat)>)
    ensures r.Some? ==> 2 <= r.value.1 <= |rest|
  {
    if |rest| < 2 then None
    else
      var len := Value(rest[..2]);
      if 2 + len > |rest| then None
      else
        var m := DecodePayload(rest[2..2 + len]);
        if m.None? then None else Some((m.value, 2 + len))
  }

  // All calls until one returns false.
  function ParseAll(rest: seq<Byte>): seq<ItchMsg>
    decreases |rest|
  {
    var r := ParseOne(rest);
    if r.None? then [] else [r.value.0] + ParseAll(rest[r.value.1..])
  }

  // What the parser leaves unread.
  function Leftover(rest: seq<Byte>): seq<Byte>
    decreases |rest|
  {
    var r := ParseOne(rest);
    if r.None? then rest else Leftover(rest[r.value.1..])
  }

  // ---- the layout, byte by byte ----------------------------------------------------------------

  function U64At(p: seq<Byte>, a: nat): nat
    requires a + 8 <= |p|
  {
    U32(p[a], p[a + 1], p[a + 2], p[a + 3]) * 0x1_0000_0000 + U32(p[a + 4], p[a + 5], p[a + 6], p[a + 7])
  }

  function U32At(p: seq<Byte>, a: nat): nat
    requires a + 4 <= |p|
  {
    U32(p[a], p[a + 1], p[a + 2], p[a + 3])
  }

  lemma FieldsAre(p: seq<Byte>, a: nat)
    ensures a + 4 <= |p| ==> Field(p, a, 4) == U32At(p, a)
    ensures a + 8 <= |p| ==> Field(p, a, 8) == U64At(p, a)
  {
    if a + 4 <= |p| {
      ValueOf4(p[a..a + 4]);
    }
    if a + 8 <= |p| {
      ValueOf8(p[a..a + 8]);
    }
  }

  lemma HeaderIs(p: seq<Byte>)
    requires |p| >= 11
    ensures var h := HeaderOf(p);
            && h.locate == U16(p[1], p[2]) && h.tracking == U16(p[3], p[4])
            && h.timestamp == U32(p[5], p[6], p[7], p[8]) * 65536 + U16(p[9], p[10])
  {
    ValueOf2(p[1..3]);
    ValueOf2(p[3..5]);
    ValueOf6(p[5..11]);
  }

  // Exactly four pairs of type byte and length are accepted, 'A' with 36 bytes, 'E' with 31,
  // 'X' with 23 and 'D' with 19; every field stands at its offset in the packed struct.
  lemma WireLayout(p: seq<Byte>)
    ensures DecodePayload(p).Some? <==>
            |p| > 0 && (p[0], |p|) in {(65, 36), (69, 31), (88, 23), (68, 19)}
    ensures |p| == 36 && p[0] == 65 ==>
              DecodePayload(p)
              == Some(AddOrder(HeaderOf(p), U64At(p, 11), p[19], U32At(p, 20), p[24..32], U32At(p, 32)))
    ensures |p| == 31 && p[0] == 69 ==>
              DecodePayload(p) == Some(OrderExecuted(HeaderOf(p), U64At(p, 11), U32At(p, 19), U64At(p, 23)))
    ensures |p| == 23 && p[0] == 88 ==>
              DecodePayload(p) == Some(OrderCancel(HeaderOf(p), U64At(p, 11), U32At(p, 19)))
    ensures |p| == 19 && p[0] == 68 ==>
              DecodePayload(p) == Some(OrderDelete(HeaderOf(p), U64At(p, 11)))
  {
    hide Field, U32At, U64At, HeaderOf;
    FieldsAre(p, 11);
    FieldsAre(p, 19);
    FieldsAre(p, 20);
    FieldsAre(p, 23);
    FieldsAre(p, 32);
  }

  // A frame is its length, high byte first, and that many bytes of payload; nothing else is read.
  lemma FrameLayout(rest: seq<Byte>)
    ensures ParseOne(rest).Some? <==>
            && |rest| >= 2 && 2 + U16(rest[0], rest[1]) <= |rest|
            && DecodePayload(rest[2..2 + U16(rest[0], rest[1])]).Some?
    ensures ParseOne(rest).Some? ==>
              var n := 2 + U16(rest[0], rest[1]);
              n <= |rest| && ParseOne(rest).value.1 == n && DecodePayload(rest[2..n]) == Some(ParseOne(rest).value.0)
  {
    hide DecodePayload, Value;
    if |rest| >= 2 {
      ValueOf2(rest[..2]);
    }
  }

  // ---- parsing undoes encoding ---------------------------------------------------------------------

  lemma Middle(a: seq<Byte>, b: seq<Byte>, c: seq<Byte>)
    ensures (a + b + c)[|a|..|a| + |b|] == b
  {
  }

  lemma FieldOf(p: seq<Byte>, a: seq<Byte>, v: nat, n: nat, c: seq<Byte>)
    requires p == a + BigEndian(v, n) + c && Fits(v, n)
    ensures Field(p, |a|, n) == v
  {
    Middle(a, BigEndian(v, n), c);
    ValueOfBigEndian(v, n);
  }

  lemma PrefixFields(kind: Byte, h: Header, ref: nat, body: seq<Byte>)
    requires Fits(h.locate, 2) && Fits(h.tracking, 2) && Fits(h.timestamp, 6) && Fits(ref, 8)
    ensures var p := Prefix(kind, h, ref) + body;
            p[0] == kind && HeaderOf(p) == h && Field(p, 11, 8) == ref
  {
    hide BigEndian, Pow256;
    var p := Prefix(kind, h, ref) + body;
    var l, t, s, r := BigEndian(h.locate, 2), BigEndian(h.tracking, 2), BigEndian(h.timestamp, 6), BigEndian(ref, 8);
    assert p == [kind] + l + (t + s + r + body);
    FieldOf(p, [kind], h.locate, 2, t + s + r + body);
    assert p == ([kind] + l) + t + (s + r + body);
    FieldOf(p, [kind] + l, h.tracking, 2, s + r + body);
    assert p == ([kind] + l + t) + s + (r + body);
    FieldOf(p, [kind] + l + t, h.timestamp, 6, r + body);
    assert p == ([kind] + l + t + s) + r + body;
    FieldOf(p, [kind] + l + t + s, ref, 8, body);
  }

  lemma DecodesAdd(m: ItchMsg)
    requires WellFormed(m) && m.AddOrder?
    ensures DecodePayload(Payload(m)) == Some(m) && |Payload(m)| == 36
  {
    hide BigEndian, Pow256, Prefix, Value;
    var p, x := Payload(m), Prefix(ADD, m.h, m.ref);
    var sh, pr := BigEndian(m.shares, 4), BigEndian(m.price, 4);
    PrefixFields(ADD, m.h, m.ref, Body(m));
    assert p == (x + [m.side]) + sh + (m.stock + pr);
    FieldOf(p, x + [m.side], m.shares, 4, m.stock + pr);
    assert p == (x + [m.side] + sh) + m.stock + pr;
    Middle(x + [m.side] + sh, m.stock, pr);
    assert p == (x + [m.side] + sh + m.stock) + pr + [];
    FieldOf(p, x + [m.side] + sh + m.stock, m.price, 4, []);
  }

  lemma DecodesExecuted(m: ItchMsg)
    requires WellFormed(m) && m.OrderExecuted?
    ensures DecodePayload(Payload(m)) == Some(m) && |Payload(m)| == 31
  {
    hide BigEndian, Pow256, Prefix, Value;
    var p, x := Payload(m), Prefix(EXECUTED, m.h, m.ref);
    var sh, mn := BigEndian(m.shares, 4), BigEndian(m.matchNumber, 8);
    PrefixFields(EXECUTED, m.h, m.ref, Body(m));
    assert p == x + sh + mn;
    FieldOf(p, x, m.shares, 4, mn);
    assert p == (x + sh) + mn + [];
    FieldOf(p, x + sh, m.matchNumber, 8, []);
  }

  lemma DecodesOthers(m: ItchMsg)
    requires WellFormed(m) && (m.OrderCancel? || m.OrderDelete?)
    ensures DecodePayload(Payload(m)) == Some(m) && |Payload(m)| == if m.OrderCancel? then 23 else 19
  {
    hide BigEndian, Pow256, Prefix, Value;
    var p, x := Payload(m), Prefix(Kind(m), m.h, m.ref);
    PrefixFields(Kind(m), m.h, m.ref, Body(m));
    if m.OrderCancel? {
      assert p == x + BigEndian(m.shares, 4) + [];
      FieldOf(p, x, m.shares, 4, []);
    }
  }

  lemma DecodesPayload(m: ItchMsg)
    requires WellFormed(m)
    ensures DecodePayload(Payload(m)) == Some(m) && |Payload(m)| <= 36
  {
    hide DecodePayload, Payload;
    match m
    case AddOrder(_, _, _, _, _, _) => DecodesAdd(m);
    case OrderExecuted(_, _, _, _) => DecodesExecuted(m);
    case _ => DecodesOthers(m);
  }

  lemma ParsesFrame(m: ItchMsg, more: seq<Byte>)
    requires WellFormed(m)
    ensures ParseOne(Frame(m) + more) == Some((m, |Frame(m)|))
  {
    hide BigEndian, DecodePayload, Payload;
    DecodesPayload(m);
    var p := Payload(m);
    var rest := Frame(m) + more;
    assert Pow256(2) == 65536;
    ValueOfBigEndian(|p|, 2);
    assert rest[..2] == BigEndian(|p|, 2);
    assert rest[2..2 + |p|] == p;
  }

  // Less than a whole frame is not parsed.
  lemma TornFrame(m: ItchMsg, k: nat)
    requires WellFormed(m) && k < |Frame(m)|
    ensures ParseOne(Frame(m)[..k]) == None
  {
    hide BigEndian, DecodePayload, Payload;
    DecodesPayload(m);
    var p := Payload(m);
    assert Pow256(2) == 65536;
    ValueOfBigEndian(|p|, 2);
    if k >= 2 {
      assert Frame(m)[..k][..2] == BigEndian(|p|, 2);
    }
  }

  // How many whole frames fit in the first k bytes of the stream.
  function Whole(ms: seq<ItchMsg>, k: nat): (n: nat)
    ensures n <= |ms|
  {
    if ms == [] || k < |Frame(ms[0])| then 0 else 1 + Whole(ms[1..], k - |Frame(ms[0])|)
  }

  // Any truncation yields exactly the messages whose frames fit whole.
  lemma {:induction false} ParsesTruncated(ms: seq<ItchMsg>, k: nat)
    requires (forall i | 0 <= i < |ms| :: WellFormed(ms[i])) && k <= |Stream(ms)|
    ensures ParseAll(Stream(ms)[..k]) == ms[..Whole(ms, k)]
    decreases |ms|
  {
    hide Frame, ParseOne, WellFormed;
    if ms == [] {
      TooShort([]);
    } else {
      var f, tail := Frame(ms[0]), Stream(ms[1..]);
      assert Stream(ms) == f + tail;
      if k < |f| {
        assert (f + tail)[..k] == f[..k];
        TornFrame(ms[0], k);
      } else {
        assert (f + tail)[..k] == f + tail[..k - |f|];
        ParsesFrame(ms[0], tail[..k - |f|]);
        assert (f + tail[..k - |f|])[|f|..] == tail[..k - |f|];
        FrameNonEmpty(ms[0]);
        ParsesTruncated(ms[1..], k - |f|);
        assert [ms[0]] + ms[1..][..Whole(ms[1..], k - |f|)] == ms[..Whole(ms, k)];
      }
    }
  }

  lemma TooShort(rest: seq<Byte>)
    requires |rest| < 2
    ensures ParseOne(rest) == None
  {
  }

  lemma FrameNonEmpty(m: ItchMsg)
    ensures |Frame(m)| >= 2
  {
  }

  // The whole stream yields exactly the list, and nothing is left over.
  lemma {:induction false} ParsesStream(ms: seq<ItchMsg>)
    requires forall i | 0 <= i < |ms| :: WellFormed(ms[i])
    ensures ParseAll(Stream(ms)) == ms && Leftover(Stream(ms)) == []
    decreases |ms|
  {
    hide Frame, ParseOne, WellFormed;
    if ms == [] {
      TooShort([]);
    } else {
      var f, tail := Frame(ms[0]), Stream(ms[1..]);
      ParsesFrame(ms[0], tail);
      assert (f + tail)[|f|..] == tail;
      FrameNonEmpty(ms[0]);
      ParsesStream(ms[1..]);
    }
  }

  // ---- encoding undoes parsing ------------------------------------------------------------------------

  lemma FieldBytes(p: seq<Byte>, at: nat, n: nat)
    requires at + n <= |p|
    ensures BigEndian(Field(p, at, n), n) == p[at..at + n] && Fits(Field(p, at, n), n)
  {
    BigEndianOfValue(p[at..at + n]);
    ValueBound(p[at..at + n]);
  }

  lemma PrefixBytes(p: seq<Byte>)
    requires |p| >= 19
    ensures Prefix(p[0], HeaderOf(p), Field(p, 11, 8)) == p[..19]
    ensures var h := HeaderOf(p); Fits(h.locate, 2) && Fits(h.tracking, 2) && Fits(h.timestamp, 6)
    ensures Fits(Field(p, 11, 8), 8)
  {
    hide BigEndian, Value, Pow256, Fits, Field;
    FieldBytes(p, 1, 2);
    FieldBytes(p, 3, 2);
    FieldBytes(p, 5, 6);
    FieldBytes(p, 11, 8);
    assert p[..19] == [p[0]] + p[1..3] + p[3..5] + p[5..11] + p[11..19];
  }

  // The parser accepts nothing but encodings: a decoded payload re-encodes to the same bytes.
  lemma Reencodes(p: seq<Byte>)
    requires DecodePayload(p).Some?
    ensures WellFormed(DecodePayload(p).value) && Payload(DecodePayload(p).value) == p
  {
    hide BigEndian, Value, Pow256, Fits, Field, Prefix, HeaderOf;
    PrefixBytes(p);
    if |p| == 36 {
      FieldBytes(p, 20, 4);
      FieldBytes(p, 32, 4);
      assert p == p[..19] + ([p[19]] + p[20..24] + p[24..32] + p[32..36]);
    } else if |p| == 31 {
      FieldBytes(p, 19, 4);
      FieldBytes(p, 23, 8);
      assert p == p[..19] + (p[19..23] + p[23..31]);
    } else if |p| == 23 {
      FieldBytes(p, 19, 4);
      assert p == p[..19] + p[19..23];
    } else {
      assert p == p[..19] + [];
    }
  }

  // The bytes a successful call consumed are exactly the frame of the message it delivered.
  lemma ConsumesItsFrame(rest: seq<Byte>)
    requires ParseOne(rest).Some?
    ensures var (m, n) := ParseOne(rest).value; WellFormed(m) && Frame(m) == rest[..n]
  {
    hide BigEndian, Value, DecodePayload, WellFormed, Payload;
    var len := Value(rest[..2]);
    Reencodes(rest[2..2 + len]);
    BigEndianOfValue(rest[..2]);
    assert rest[..2] + rest[2..2 + len] == rest[..2 + len];
  }

  lemma Rejoined(rest: seq<Byte>, n: nat, parsed: seq<Byte>, left: seq<Byte>)
    requires n <= |rest| && parsed + left == rest[n..]
    ensures rest[..n] + parsed + left == rest
  {
    assert rest[..n] + parsed + left == rest[..n] + (parsed + left);
  }

  // Parsed prefix plus leftover is the input: no byte is skipped or read twice.
  lemma {:induction false} NothingSkipped(rest: seq<Byte>)
    ensures Stream(ParseAll(rest)) + Leftover(rest) == rest
    ensures ParseOne(Leftover(rest)) == None
    decreases |rest|
  {
    hide Frame, ParseOne, WellFormed;
    if ParseOne(rest).Some? {
      var (m, n) := ParseOne(rest).value;
      ConsumesItsFrame(rest);
      NothingSkipped(rest[n..]);
      assert ([m] + ParseAll(rest[n..]))[1..] == ParseAll(rest[n..]);
      Rejoined(rest, n, Stream(ParseAll(rest[n..])), Leftover(rest[n..]));
    }
  }

  // ---- the cursor ---------------------------------------------------------------------------------------

  class ItchParser {
    const data: seq<Byte>
    var cur: nat

    ghost predicate Valid()
      reads this
    {
      cur <= |data|
    }

    constructor (data: seq<Byte>)
      ensures Valid() && this.data == data && cur == 0
    {
      this.data := data;
      cur := 0;
    }

    // Decode one message; None at the end of the stream or on a malformed frame.
    method Next() returns (r: Option<ItchMsg>)
      requires Valid()
      modifies this
      ensures Valid()
      ensures match ParseOne(data[old(cur)..])
              case Some((m, n)) => r == Some(m) && cur == old(cur) + n
              case None => r == None && cur == old(cur)
    {
      if cur + 2 > |data| { return None; }
      var prefix := data[cur..cur + 2];
      SwappedLoad(prefix);
      var len := Bswap(HostLoad(prefix), 2);
      var p := cur + 2;
      assert data[cur..][..2] == prefix;
      if p + len > |data| { return None; }
      assert data[cur..][2..2 + len] == data[p..p + len];
      r := DecodePayload(data[p..p + len]);
      if r.Some? {
        cur := p + len;
      }
    }

    // Call after call, until one delivers nothing.
    method Drain() returns (ms: seq<ItchMsg>)
      requires Valid()
      modifies this
      ensures Valid()
      ensures ms == ParseAll(data[old(cur)..]) && data[cur..] == Leftover(data[old(cur)..])
    {
      hide ParseOne;
      ghost var start := data[cur..];
      ms := [];
      var r := Next();
      while r.Some?
        invariant Valid()
        invariant r.None? ==> ParseOne(data[cur..]) == None
        invariant ParseAll(start) == ms + (if r.Some? then [r.value] else []) + ParseAll(data[cur..])
        invariant Leftover(start) == Leftover(data[cur..])
        decreases |data| - cur, r.Some?
      {
        ms := ms + [r.value];
        ghost var rest := data[cur..];
        r := Next();
        if r.Some? {
          assert data[cur..] == rest[ParseOne(rest).value.1..];
        }
      }
    }
  }
}
