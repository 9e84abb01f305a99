/** The MQTT 3.1.1 codec: packet framing over a byte stream, and the CONNECT, SUBSCRIBE,
    SUBACK and PUBLISH bodies. Bytes are numbers below 256, so a shift by four is a
    factor of sixteen and a set of disjoint bits is their sum. */
module Wire {
  import opened Wrappers

  type Byte = n: int | 0 <= n < 256
  type Bytes = seq<Byte>

  const MAX_PACKET_SIZE := 1048576

  datatype Packet = Packet(typ: Byte, flags: Byte, payload: Bytes)

  datatype ReadError = EndOfStream | TruncatedLength | MalformedLength | TooLarge(length: nat) | ShortBody(length: nat)

  /** What reading from a stream yields, and what it leaves there. */
  datatype Read<T> = Got(value: T, rest: Bytes) | Failed(why: ReadError, rest: Bytes)

  // ---- the remaining length (section 2.2.3) ------------------------------------------

  function VarintBytes(n: nat): Bytes {
    if n < 128 then [n] else [n % 128 + 128] + VarintBytes(n / 128)
  }

  /** At most k more bytes may belong to the number. */
  function ParseVarint(s: Bytes, k: nat): Read<nat> {
    if k == 0 then Failed(MalformedLength, s)
    else if s == [] then Failed(TruncatedLength, s)
    else if s[0] < 128 then Got(s[0], s[1..])
    else match ParseVarint(s[1..], k - 1)
      case Got(v, rest) => Got(s[0] % 128 + 128 * v, rest)
      case Failed(e, rest) => Failed(e, rest)
  }

  function Pow128(k: nat): nat {
    if k == 0 then 1 else 128 * Pow128(k - 1)
  }

  method AppendVarint(dst: Bytes, length: nat) returns (out: Bytes)
    ensures out == dst + VarintBytes(length)
  {
    out := dst;
    var n := length;
    while true
      invariant out + VarintBytes(n) == dst + VarintBytes(length)
      decreases n
    {
      var digit := n % 128;
      n := n / 128;
      if n > 0 {
        digit := digit + 128;
      }
      out := out + [digit];
      if n == 0 {
        return;
      }
    }
  }

  lemma {:induction false} VarintLength(n: nat, k: nat)
    requires k >= 1
    ensures |VarintBytes(n)| <= k <==> n < Pow128(k)
  {
    if n >= 128 && k > 1 {
      VarintLength(n / 128, k - 1);
    } else {
      PowAtLeast(k);
    }
  }

  lemma {:induction false} PowAtLeast(k: nat)
    requires k >= 1
    ensures Pow128(k) >= 128
  {
    if k > 1 {
      PowAtLeast(k - 1);
    }
  }

  /** The decoder inverts the encoder and leaves the rest of the stream alone exactly for
      the numbers that fit in the bytes it allows. */
  lemma {:induction false} VarintInverts(n: nat, k: nat, rest: Bytes)
    requires k >= 1
    ensures ParseVarint(VarintBytes(n) + rest, k) == Got(n, rest) <==> n < Pow128(k)
    ensures n >= Pow128(k) ==> ParseVarint(VarintBytes(n) + rest, k).Failed?
  {
    var s := VarintBytes(n) + rest;
    PowAtLeast(k);
    if n < 128 {
      assert s[1..] == rest;
    } else {
      assert s[1..] == VarintBytes(n / 128) + rest;
      if k > 1 {
        VarintInverts(n / 128, k - 1, rest);
      }
    }
  }

  // ---- packets ------------------------------------------------------------------------

  function ParsePacket(s: Bytes): Read<Packet> {
    if s == [] then Failed(EndOfStream, s)
    else match ParseVarint(s[1..], 4)
      case Failed(e, rest) => Failed(e, rest)
      case Got(n, rest) =>
        if n > MAX_PACKET_SIZE then Failed(TooLarge(n), rest)
        else if |rest| < n then Failed(ShortBody(n), [])
        else Got(Packet(s[0] / 16, s[0] % 16, rest[..n]), rest[n..])
  }

  function Encode(p: Packet): Bytes
    requires p.typ < 16 && p.flags < 16
  {
    [p.typ * 16 + p.flags] + VarintBytes(|p.payload|) + p.payload
  }

  /** The byte stream of one connection, and the reader's place in it. */
  class Reader {
    var input: Bytes

    constructor (s: Bytes)
      ensures input == s
    {
      input := s;
    }

    method ReadByte() returns (b: Option<Byte>)
      modifies this
      ensures b.None? <==> old(input) == []
      ensures b.None? ==> input == old(input)
      ensures b.Some? ==> b.value == old(input)[0] && input == old(input)[1..]
    {
      if input == [] {
        return None;
      }
      b := Some(input[0]);
      input := input[1..];
    }

    method ReadVarint() returns (r: Result<nat, ReadError>)
      modifies this
      ensures r.Ok? ==> ParseVarint(old(input), 4) == Got(r.value, input)
      ensures r.Err? ==> ParseVarint(old(input), 4) == Failed(r.error, input)
    {
      var value: nat, multiplier: nat := 0, 1;
      ghost var whole := ParseVarint(input, 4);
      for i := 0 to 4
        invariant whole == Scaled(value, multiplier, ParseVarint(input, 4 - i))
      {
        ghost var before := input;
        var b := ReadByte();
        if b.None? {
          return Err(TruncatedLength);
        }
        assert before == [b.value] + input;
        VarintStep([b.value] + input, 4 - i, value, multiplier);
        value := value + b.value % 128 * multiplier;
        if b.value < 128 {
          return Ok(value);
        }
        multiplier := multiplier * 128;
      }
      return Err(MalformedLength);
    }

    method ReadPacket() returns (r: Result<Packet, ReadError>)
      modifies this
      ensures r.Ok? ==> ParsePacket(old(input)) == Got(r.value, input)
      ensures r.Err? ==> ParsePacket(old(input)) == Failed(r.error, input)
    {
      var head := ReadByte();
      if head.None? {
        return Err(EndOfStream);
      }
      var length := ReadVarint();
      if length.Err? {
        return Err(length.error);
      }
      if length.value > MAX_PACKET_SIZE {
        return Err(TooLarge(length.value));
      }
      if |input| < length.value {
        input := [];
        return Err(ShortBody(length.value));
      }
      var body := input[..length.value];
      input := input[length.value..];
      return Ok(Packet(head.value / 16, head.value % 16, body));
    }
  }

  /** The digits still to come count multiplier times as much as they would alone. */
  function Scaled(value: nat, multiplier: nat, r: Read<nat>): Read<nat> {
    match r
    case Got(v, rest) => Got(value + multiplier * v, rest)
    case Failed(e, rest) => Failed(e, rest)
  }

  /** One turn of the loop: the digit is added with its weight. */
  lemma VarintStep(s: Bytes, k: nat, value: nat, multiplier: nat)
    requires s != [] && k > 0
    ensures s[0] % 128 * multiplier >= 0
    ensures Scaled(value, multiplier, ParseVarint(s, k))
         == if s[0] < 128 then Got(value + s[0] % 128 * multiplier, s[1..])
            else Scaled(value + s[0] % 128 * multiplier, multiplier * 128, ParseVarint(s[1..], k - 1))
  {
    var digit := s[0] % 128;
    assert digit * multiplier == multiplier * digit >= 0;
    if s[0] >= 128 && ParseVarint(s[1..], k - 1).Got? {
      var v := ParseVarint(s[1..], k - 1).value;
      Distribute(multiplier, digit, v);
    }
  }

  lemma Distribute(m: nat, d: nat, v: nat)
    ensures m * (d + 128 * v) == d * m + m * 128 * v
  {
  }

  predicate Sendable(p: Packet) {
    p.typ < 16 && p.flags < 16 && |p.payload| <= MAX_PACKET_SIZE
  }

  /** An encoded packet is read back, with the stream after it untouched, exactly when its
      payload is within the limit. */
  lemma PacketReadsBack(p: Packet, rest: Bytes)
    requires p.typ < 16 && p.flags < 16
    ensures ParsePacket(Encode(p) + rest) == Got(p, rest) <==> |p.payload| <= 1048576
    ensures Sendable(p) ==> 2 + |p.payload| <= |Encode(p)| <= 5 + |p.payload|
    ensures Encode(p)[0] == p.typ * 16 + p.flags
  {
    var s := Encode(p) + rest;
    var n := |p.payload|;
    var tail := p.payload + rest;
    assert s[1..] == VarintBytes(n) + tail;
    assert Pow128(4) == 268435456;
    VarintInverts(n, 4, tail);
    VarintLength(n, 4);
    assert tail[..n] == p.payload && tail[n..] == rest;
  }

  function EncodeAll(ps: seq<Packet>): Bytes
    requires forall i :: 0 <= i < |ps| ==> Sendable(ps[i])
  {
    if ps == [] then []
    else
      assert Sendable(ps[0]);
      Encode(ps[0]) + EncodeAll(ps[1..])
  }

  /** Reading n packets in a row. */
  function ParseMany(s: Bytes, n: nat): Read<seq<Packet>>
    decreases n
  {
    if n == 0 then Got([], s)
    else match ParsePacket(s)
      case Failed(e, rest) => Failed(e, rest)
      case Got(p, rest) =>
        match ParseMany(rest, n - 1)
        case Failed(e, rest') => Failed(e, rest')
        case Got(ps, rest') => Got([p] + ps, rest')
  }

  lemma ParseManyMore(s: Bytes, tail: Bytes, ps: seq<Packet>, rest: Bytes)
    requires ps != [] && ParsePacket(s) == Got(ps[0], tail) && ParseMany(tail, |ps| - 1) == Got(ps[1..], rest)
    ensures ParseMany(s, |ps|) == Got(ps, rest)
  {
    assert [ps[0]] + ps[1..] == ps;
  }

  lemma EncodeAllMore(ps: seq<Packet>, rest: Bytes)
    requires ps != [] && forall i :: 0 <= i < |ps| ==> Sendable(ps[i])
    ensures Sendable(ps[0]) && EncodeAll(ps) + rest == Encode(ps[0]) + (EncodeAll(ps[1..]) + rest)
  {
  }

  /** Framing: any packets sent back to back come out one by one, and what follows them
      on the stream is left for the next read. */
  lemma {:induction false} StreamFraming(ps: seq<Packet>, rest: Bytes)
    requires forall i :: 0 <= i < |ps| ==> Sendable(ps[i])
    ensures ParseMany(EncodeAll(ps) + rest, |ps|) == Got(ps, rest)
  {
    if ps == [] {
      assert EncodeAll(ps) + rest == rest;
    } else {
      var tail := EncodeAll(ps[1..]) + rest;
      EncodeAllMore(ps, rest);
      PacketReadsBack(ps[0], tail);
      StreamFraming(ps[1..], rest);
      ParseManyMore(EncodeAll(ps) + rest, tail, ps, rest);
    }
  }

  // ---- what is on the wire -----------------------------------------------------------------

  /** The number in a run of length bytes: seven bits each, the least significant first. */
  function VarintValue(b: Bytes): nat {
    if b == [] then 0 else b[0] % 128 + 128 * VarintValue(b[1..])
  }

  /** Every byte but the last says that another one follows. */
  predicate WellMarked(b: Bytes) {
    b != [] && b[|b| - 1] < 128 && forall i :: 0 <= i < |b| - 1 ==> b[i] >= 128
  }

  lemma MarkedMore(c: Byte, b: Bytes)
    requires c >= 128 && WellMarked(b)
    ensures WellMarked([c] + b) && VarintValue([c] + b) == c % 128 + 128 * VarintValue(b)
  {
    assert ([c] + b)[1..] == b;
  }

  /** What the length encoder writes: the number, in the fewest bytes that hold it. */
  lemma {:induction false} VarintMeans(n: nat)
    ensures var b := VarintBytes(n);
      WellMarked(b) && VarintValue(b) == n && (|b| > 1 ==> b[|b| - 1] > 0)
  {
    if n >= 128 {
      VarintMeans(n / 128);
      MarkedMore(n % 128 + 128, VarintBytes(n / 128));
    } else {
      assert [n][1..] == [];
    }
  }

  /** What the length decoder takes: the bytes up to the first that ends the number, no more
      than it may, and the number in them. */
  lemma {:induction false} VarintConsumes(s: Bytes, k: nat) returns (b: Bytes)
    requires ParseVarint(s, k).Got?
    ensures s == b + ParseVarint(s, k).rest && |b| <= k
    ensures WellMarked(b) && VarintValue(b) == ParseVarint(s, k).value
  {
    if s[0] < 128 {
      b := [s[0]];
      assert b[1..] == [];
    } else {
      b := VarintConsumes(s[1..], k - 1);
      MarkedMore(s[0], b);
      b := [s[0]] + b;
    }
  }

  /** Whatever the bytes, a packet that is read is bounded, is the bytes after a header whose
      first byte holds its type and flags and whose next one to four its length, and
      nothing past its end is consumed. */
  lemma ReadIsBounded(s: Bytes) returns (length: Bytes)
    requires ParsePacket(s).Got?
    ensures var p := ParsePacket(s).value;
      && Sendable(p) && 1 <= |length| <= 4
      && WellMarked(length) && VarintValue(length) == |p.payload|
      && s == [p.typ * 16 + p.flags] + length + p.payload + ParsePacket(s).rest
  {
    length := VarintConsumes(s[1..], 4);
    var after := ParseVarint(s[1..], 4).rest;
    var n := ParseVarint(s[1..], 4).value;
    HeadAndTail(s, length, after, n);
  }

  lemma HeadAndTail(s: Bytes, length: Bytes, after: Bytes, n: nat)
    requires s != [] && s[1..] == length + after && n <= |after|
    ensures s == [s[0] / 16 * 16 + s[0] % 16] + length + after[..n] + after[n..]
  {
    assert after == after[..n] + after[n..];
    assert s == [s[0]] + (length + after);
  }

  lemma {:induction false} VarintTaken(b: Bytes, rest: Bytes, k: nat)
    requires WellMarked(b) && |b| <= k
    ensures ParseVarint(b + rest, k) == Got(VarintValue(b), rest)
  {
    var s := b + rest;
    assert s[0] == b[0] && s[1..] == b[1..] + rest;
    if |b| > 1 {
      VarintTaken(b[1..], rest, k - 1);
    } else {
      assert b[1..] == [] && [] + rest == rest;
    }
  }

  lemma {:induction false} VarintUnending(b: Bytes, rest: Bytes, k: nat)
    requires |b| <= k && (forall i :: 0 <= i < |b| ==> b[i] >= 128) && (|b| < k ==> rest == [])
    ensures ParseVarint(b + rest, k) == Failed(if |b| == k then MalformedLength else TruncatedLength, rest)
  {
    if b == [] {
      assert b + rest == rest;
    } else {
      assert (b + rest)[0] == b[0] && (b + rest)[1..] == b[1..] + rest;
      VarintUnending(b[1..], rest, k - 1);
    }
  }

  /** What the reader makes of every stream that is not empty: a first byte, a length that
      ends within four bytes, and then a body that is too long, not all there, or read;
      or a length that goes on after the fourth byte or is cut off before it ends. */
  lemma ReadDecides(head: Byte, length: Bytes, after: Bytes)
    requires |length| <= 4
    ensures WellMarked(length) ==>
              ParsePacket([head] + length + after)
              == var n := VarintValue(length);
                 if n > 1048576 then Failed(TooLarge(n), after)
                 else if |after| < n then Failed(ShortBody(n), [])
                 else Got(Packet(head / 16, head % 16, after[..n]), after[n..])
    ensures (forall i :: 0 <= i < |length| ==> length[i] >= 128) && (|length| < 4 ==> after == []) ==>
              ParsePacket([head] + length + after)
              == Failed(if |length| == 4 then MalformedLength else TruncatedLength, after)
  {
    var s := [head] + length + after;
    assert s[1..] == length + after && s[0] == head;
    if WellMarked(length) {
      VarintTaken(length, after, 4);
    } else if forall i :: 0 <= i < |length| ==> length[i] >= 128 {
      if |length| < 4 ==> after == [] {
        VarintUnending(length, after, 4);
      }
    }
  }

  lemma {:induction false} VarintCut(n: nat, j: nat, k: nat)
    requires j < |VarintBytes(n)| <= k
    ensures ParseVarint(VarintBytes(n)[..j], k) == Failed(TruncatedLength, [])
  {
    if j > 0 {
      var b := VarintBytes(n);
      assert b == [n % 128 + 128] + VarintBytes(n / 128);
      assert b[..j][1..] == VarintBytes(n / 128)[..j - 1];
      VarintCut(n / 128, j - 1, k - 1);
    }
  }

  /** A packet that is cut off anywhere is never taken for one: the reader says whether
      nothing at all had come, or the length was incomplete, or the body was. */
  lemma CutOffIsRefused(p: Packet, j: nat)
    requires Sendable(p) && j < |Encode(p)|
    ensures ParsePacket(Encode(p)[..j])
         == if j == 0 then Failed(EndOfStream, [])
            else if j <= |VarintBytes(|p.payload|)| then Failed(TruncatedLength, [])
            else Failed(ShortBody(|p.payload|), [])
  {
    var n := |p.payload|;
    var v := VarintBytes(n);
    assert Pow128(4) == 268435456;
    VarintLength(n, 4);
    if j > 0 {
      var s := Encode(p)[..j];
      if j <= |v| {
        assert s[1..] == v[..j - 1];
        VarintCut(n, j - 1, 4);
      } else {
        assert s[1..] == v + p.payload[..j - 1 - |v|];
        VarintInverts(n, 4, p.payload[..j - 1 - |v|]);
      }
    }
  }

  // ---- length-prefixed fields ------------------------------------------------------------

  function U16(n: nat): Bytes {
    [n / 256 % 256, n % 256]
  }

  function FromU16(hi: Byte, lo: Byte): nat {
    hi * 256 + lo
  }

  lemma U16ReadsBack(n: nat, rest: Bytes)
    requires n <= 65535
    ensures (U16(n) + rest)[2..] == rest && FromU16((U16(n) + rest)[0], (U16(n) + rest)[1]) == n
  {
  }

  /** appendString: the length is cut to sixteen bits, the bytes are not. */
  function StringBytes(t: Bytes): Bytes {
    U16(|t|) + t
  }

  /** The field at the front of s, and what follows it. */
  function TakeString(s: Bytes): (r: Option<(Bytes, Bytes)>)
    ensures r.Some? ==> |s| == 2 + |r.value.0| + |r.value.1|
  {
    if |s| < 2 then None
    else
      var n := FromU16(s[0], s[1]);
      if |s| < 2 + n then None else Some((s[2..2 + n], s[2 + n..]))
  }

  /** readString, by offset. */
  method ReadString(b: Bytes, i: nat) returns (r: Option<(Bytes, nat)>)
    requires i <= |b|
    ensures r.None? <==> TakeString(b[i..]).None?
    ensures r.Some? ==> i + 2 <= r.value.1 <= |b| && TakeString(b[i..]) == Some((r.value.0, b[r.value.1..]))
  {
    if i + 2 > |b| {
      return None;
    }
    var n := FromU16(b[i], b[i + 1]);
    if i + 2 + n > |b| {
      return None;
    }
    assert b[i..][2..2 + n] == b[i + 2..i + 2 + n] && b[i..][2 + n..] == b[i + 2 + n..];
    return Some((b[i + 2..i + 2 + n], i + 2 + n));
  }

  predicate Fits(t: Bytes) {
    |t| <= 65535
  }

  /** A field is read back with its neighbours untouched exactly when its length fits in
      the sixteen bits of the prefix. */
  lemma StringReadsBack(t: Bytes, rest: Bytes)
    ensures TakeString(StringBytes(t) + rest) == Some((t, rest)) <==> Fits(t)
    ensures !Fits(t) && TakeString(StringBytes(t) + rest).Some? ==> |TakeString(StringBytes(t) + rest).value.0| < |t|
  {
    var s := StringBytes(t) + rest;
    var n := FromU16(s[0], s[1]);
    if Fits(t) {
      assert s[2..2 + n] == t && s[2 + n..] == rest;
    } else if TakeString(s).Some? {
      assert |TakeString(s).value.0| == n < |t|;
    }
  }

  lemma FromU16ReadsBack(hi: Byte, lo: Byte)
    ensures FromU16(hi, lo) <= 65535 && U16(FromU16(hi, lo)) == [hi, lo]
  {
  }

  /** Two bytes hold a number with the most significant first (section 1.5.2). */
  lemma BigEndian(n: nat)
    requires n <= 65535
    ensures var hi: int, lo: int := U16(n)[0], U16(n)[1];
      hi * 256 + lo == n && FromU16(U16(n)[0], U16(n)[1]) == n
    ensures U16(0x1234) == [0x12, 0x34]
  {
  }

  /** A field is taken from the front exactly when it stands there: its length in two bytes,
      then that many bytes. Anything else is refused. */
  lemma TakeStringExactly(s: Bytes, t: Bytes, rest: Bytes)
    ensures TakeString(s) == Some((t, rest)) <==> Fits(t) && s == StringBytes(t) + rest
  {
    if Fits(t) && s == StringBytes(t) + rest {
      StringReadsBack(t, rest);
    }
    if TakeString(s) == Some((t, rest)) {
      var n := FromU16(s[0], s[1]);
      FromU16ReadsBack(s[0], s[1]);
      assert s == [s[0], s[1]] + s[2..2 + n] + s[2 + n..];
    }
  }

  // ---- CONNECT (section 3.1) --------------------------------------------------------------

  datatype Connect = Connect(
    protocolName: Bytes, protocolLevel: Byte, keepAlive: nat, clientID: Bytes, username: Bytes, password: Bytes)

  datatype ConnectOptions = ConnectOptions(
    clientID: Bytes, keepAlive: nat, username: Bytes, password: Bytes,
    willTopic: Bytes, willPayload: Bytes, willRetain: bool, willQoS: Byte, cleanSession: bool)

  datatype ConnectError = ProtocolName | Header | ClientID | WillTopic | WillMessage | Username | Password

  predicate Bit(flags: Byte, mask: int)
    requires mask > 0
  {
    flags / mask % 2 == 1
  }

  /** A field that is there only when its flag is. */
  function TakeOptional(present: bool, s: Bytes): (r: Option<(Bytes, Bytes)>) {
    if present then TakeString(s) else Some(([], s))
  }

  /** The credentials, after the will has been skipped. */
  function ParseCredentials(flags: Byte, s: Bytes): Result<(Bytes, Bytes), ConnectError> {
    match TakeOptional(Bit(flags, 128), s)
    case None => Err(Username)
    case Some((username, r)) =>
      match TakeOptional(Bit(flags, 64), r)
      case None => Err(Password)
      case Some((password, _)) => Ok((username, password))
  }

  /** The will's topic and message, which the server does not keep. */
  function SkipWill(flags: Byte, s: Bytes): Result<Bytes, ConnectError> {
    match TakeOptional(Bit(flags, 4), s)
    case None => Err(WillTopic)
    case Some((_, r)) =>
      match TakeOptional(Bit(flags, 4), r)
      case None => Err(WillMessage)
      case Some((_, rest)) => Ok(rest)
  }

  /** DecodeConnect, as one field after another consumed from the front. */
  function ParseConnect(s: Bytes): Result<Connect, ConnectError> {
    match TakeString(s)
    case None => Err(ProtocolName)
    case Some((name, r)) =>
      if |r| < 4 then Err(Header)
      else
        match TakeString(r[4..])
        case None => Err(ClientID)
        case Some((clientID, r1)) =>
          match SkipWill(r[1], r1)
          case Err(e) => Err(e)
          case Ok(r2) =>
            match ParseCredentials(r[1], r2)
            case Err(e) => Err(e)
            case Ok((username, password)) =>
              Ok(Connect(name, r[0], FromU16(r[2], r[3]), clientID, username, password))
  }

  method DecodeConnect(payload: Bytes) returns (r: Result<Connect, ConnectError>)
    ensures r == ParseConnect(payload)
  {
    assert payload[0..] == payload;
    var name := ReadString(payload, 0);
    if name.None? {
      return Err(ProtocolName);
    }
    var i := name.value.1;
    if i + 4 > |payload| {
      return Err(Header);
    }
    var flags := payload[i + 1];
    var c := Connect(name.value.0, payload[i], FromU16(payload[i + 2], payload[i + 3]), [], [], []);
    assert payload[i..][4..] == payload[i + 4..];
    i := i + 4;
    var clientID := ReadString(payload, i);
    if clientID.None? {
      return Err(ClientID);
    }
    c, i := c.(clientID := clientID.value.0), clientID.value.1;
    if Bit(flags, 4) {
      var topic := ReadString(payload, i);
      if topic.None? {
        return Err(WillTopic);
      }
      i := topic.value.1;
      var message := ReadString(payload, i);
      if message.None? {
        return Err(WillMessage);
      }
      i := message.value.1;
    }
    if Bit(flags, 128) {
      var username := ReadString(payload, i);
      if username.None? {
        return Err(Username);
      }
      c, i := c.(username := username.value.0), username.value.1;
    }
    if Bit(flags, 64) {
      var password := ReadString(payload, i);
      if password.None? {
        return Err(Password);
      }
      c := c.(password := password.value.0);
    }
    return Ok(c);
  }

  const MQTT: Bytes := [77, 81, 84, 84]

  function Mask(c: bool, bits: nat): nat {
    if c then bits else 0
  }

  function ConnectFlags(o: ConnectOptions): Byte {
    var will := o.willTopic != [];
    2 * Mask(o.cleanSession, 1) + 4 * Mask(will, 1) + 8 * (if will then o.willQoS % 4 else 0)
    + 32 * Mask(will && o.willRetain, 1) + 64 * Mask(o.password != [], 1) + 128 * Mask(o.username != [], 1)
  }

  lemma SixParts(c: nat, w: nat, q: nat, r: nat, p: nat, u: nat)
    requires c <= 1 && w <= 1 && q <= 3 && r <= 1 && p <= 1 && u <= 1
    ensures var f := 2 * c + 4 * w + 8 * q + 32 * r + 64 * p + 128 * u;
      && f % 2 == 0 && f / 2 % 2 == c && f / 4 % 2 == w && f / 8 % 4 == q
      && f / 32 % 2 == r && f / 64 % 2 == p && f / 128 % 2 == u
  {
    var f := 2 * c + 4 * w + 8 * q + 32 * r + 64 * p + 128 * u;
    assert f / 128 == u && f / 64 == p + 2 * u && f / 32 == r + 2 * p + 4 * u;
    assert f / 8 == q + 4 * (r + 2 * p + 4 * u);
    assert f / 4 == w + 2 * (q + 4 * (r + 2 * p + 4 * u));
    assert f / 2 == c + 2 * (w + 2 * (q + 4 * (r + 2 * p + 4 * u)));
  }

  /** Every bit of the flag byte (section 3.1.2.3): the reserved one is clear, the two of the
      will's QoS and its retain bit are clear without a will. */
  lemma FlagBits(o: ConnectOptions)
    ensures var f, will := ConnectFlags(o), o.willTopic != [];
      && !Bit(f, 1)
      && (Bit(f, 2) <==> o.cleanSession)
      && (Bit(f, 4) <==> will)
      && f / 8 % 4 == (if will then o.willQoS % 4 else 0)
      && (Bit(f, 32) <==> will && o.willRetain)
      && (Bit(f, 64) <==> o.password != [])
      && (Bit(f, 128) <==> o.username != [])
  {
    var will := o.willTopic != [];
    SixParts(Mask(o.cleanSession, 1), Mask(will, 1), if will then o.willQoS % 4 else 0,
             Mask(will && o.willRetain, 1), Mask(o.password != [], 1), Mask(o.username != [], 1));
  }

  /** An optional field; empty means absent. */
  function OptionalBytes(t: Bytes): Bytes {
    if t == [] then [] else StringBytes(t)
  }

  function WillBytes(o: ConnectOptions): Bytes {
    if o.willTopic == [] then [] else StringBytes(o.willTopic) + StringBytes(o.willPayload)
  }

  function ConnectBody(o: ConnectOptions): Bytes {
    var credentials := OptionalBytes(o.username) + OptionalBytes(o.password);
    StringBytes(MQTT)
    + ([4, ConnectFlags(o)] + U16(o.keepAlive) + (StringBytes(o.clientID) + (WillBytes(o) + credentials)))
  }

  lemma Regroup(a: Bytes, b: Bytes, c: Bytes, d: Bytes, e: Bytes, f: Bytes, g: Bytes)
    ensures a + b + c + d + e + f + g == a + (b + c + (d + (e + (f + g))))
  {
  }

  method EncodeFlags(o: ConnectOptions) returns (flags: Byte)
    ensures flags == ConnectFlags(o)
  {
    flags := 0;
    if o.cleanSession {
      flags := flags + 2;
    }
    if o.willTopic != [] {
      flags := flags + 4 + o.willQoS % 4 * 8;
      if o.willRetain {
        flags := flags + 32;
      }
    }
    if o.password != [] {
      flags := flags + 64;
    }
    if o.username != [] {
      flags := flags + 128;
    }
  }

  method EncodeConnect(o: ConnectOptions) returns (packet: Bytes)
    ensures packet == Encode(Packet(1, 0, ConnectBody(o)))
  {
    var flags := EncodeFlags(o);
    var body: Bytes := [0, 4, 77, 81, 84, 84, 4, flags];
    body := body + U16(o.keepAlive);
    body := body + StringBytes(o.clientID);
    assert body == StringBytes(MQTT) + [4, ConnectFlags(o)] + U16(o.keepAlive) + StringBytes(o.clientID);
    var fixed := body;
    if o.willTopic != [] {
      body := body + StringBytes(o.willTopic);
      body := body + U16(|o.willPayload|);
      body := body + o.willPayload;
    }
    assert body == fixed + WillBytes(o);
    if o.username != [] {
      body := body + StringBytes(o.username);
    }
    if o.password != [] {
      body := body + StringBytes(o.password);
    }
    assert body == fixed + WillBytes(o) + OptionalBytes(o.username) + OptionalBytes(o.password);
    Regroup(StringBytes(MQTT), [4, ConnectFlags(o)], U16(o.keepAlive), StringBytes(o.clientID),
            WillBytes(o), OptionalBytes(o.username), OptionalBytes(o.password));
    packet := EncodePacket(1, 0, body);
  }

  method EncodePacket(typ: Byte, flags: Byte, payload: Bytes) returns (out: Bytes)
    requires typ < 16 && flags < 16
    ensures out == Encode(Packet(typ, flags, payload))
  {
    out := [typ * 16 + flags];
    out := AppendVarint(out, |payload|);
    out := out + payload;
  }

  predicate FieldsFit(o: ConnectOptions) {
    && Fits(o.clientID) && Fits(o.username) && Fits(o.password) && Fits(o.willTopic) && Fits(o.willPayload)
    && o.keepAlive <= 65535
  }

  /** The will never shifts what follows it. */
  lemma WillIsSkipped(o: ConnectOptions, rest: Bytes)
    requires Fits(o.willTopic) && Fits(o.willPayload)
    ensures SkipWill(ConnectFlags(o), WillBytes(o) + rest) == Ok(rest)
  {
    FlagBits(o);
    if o.willTopic != [] {
      var tail := StringBytes(o.willPayload) + rest;
      assert WillBytes(o) + rest == StringBytes(o.willTopic) + tail;
      StringReadsBack(o.willTopic, tail);
      StringReadsBack(o.willPayload, rest);
    } else {
      assert [] + rest == rest;
    }
  }

  lemma OptionalReadsBack(t: Bytes, rest: Bytes)
    ensures TakeOptional(t != [], OptionalBytes(t) + rest) == Some((t, rest)) <==> Fits(t)
    ensures !Fits(t) && TakeOptional(t != [], OptionalBytes(t) + rest).Some? ==>
              |TakeOptional(t != [], OptionalBytes(t) + rest).value.0| < |t|
  {
    StringReadsBack(t, rest);
    assert [] + rest == rest;
  }

  lemma CredentialsReadBack(o: ConnectOptions)
    ensures var s := OptionalBytes(o.username) + OptionalBytes(o.password);
      ParseCredentials(ConnectFlags(o), s) == Ok((o.username, o.password)) <==> Fits(o.username) && Fits(o.password)
  {
    FlagBits(o);
    var password := OptionalBytes(o.password);
    OptionalReadsBack(o.username, password);
    OptionalReadsBack(o.password, []);
    assert password + [] == password;
  }

  lemma HeaderReadsBack(flags: Byte, keepAlive: nat, rest: Bytes)
    requires keepAlive <= 65535
    ensures var h := [4, flags] + U16(keepAlive) + rest;
      h[0] == 4 && h[1] == flags && FromU16(h[2], h[3]) == keepAlive && h[4..] == rest
  {
  }

  /** With a will that fits, or none, the packet reads back as it was meant exactly when
      the three other fields fit their length prefixes, which appendString never checks. */
  lemma ConnectReadsBackExactly(o: ConnectOptions)
    requires Fits(o.willTopic) && Fits(o.willPayload) && o.keepAlive <= 65535
    ensures ParseConnect(ConnectBody(o)) == Ok(Connect(MQTT, 4, o.keepAlive, o.clientID, o.username, o.password))
       <==> Fits(o.clientID) && Fits(o.username) && Fits(o.password)
  {
    var flags := ConnectFlags(o);
    var credentials := OptionalBytes(o.username) + OptionalBytes(o.password);
    var will := WillBytes(o) + credentials;
    var id := StringBytes(o.clientID) + will;
    var header := [4, flags] + U16(o.keepAlive) + id;
    StringReadsBack(MQTT, header);
    HeaderReadsBack(flags, o.keepAlive, id);
    StringReadsBack(o.clientID, will);
    WillIsSkipped(o, credentials);
    CredentialsReadBack(o);
  }

  /** CONNECT round trip, for every combination of will, username and password: the
      identity, keep-alive and credentials come back, and the packet is within the size
      the reader accepts. */
  lemma ConnectRoundTrip(o: ConnectOptions)
    requires FieldsFit(o)
    ensures ParseConnect(ConnectBody(o)) == Ok(Connect(MQTT, 4, o.keepAlive, o.clientID, o.username, o.password))
    ensures |ConnectBody(o)| <= MAX_PACKET_SIZE
  {
    ConnectReadsBackExactly(o);
    assert |WillBytes(o)| <= 131074 && |OptionalBytes(o.username) + OptionalBytes(o.password)| <= 131074;
  }

  /** The layout of a CONNECT body that announces c, and of the rest it may carry. */
  function ConnectLayout(c: Connect, flags: Byte, willTopic: Bytes, willMessage: Bytes, extra: Bytes): Bytes {
    var credentials := (if Bit(flags, 128) then StringBytes(c.username) else [])
                     + ((if Bit(flags, 64) then StringBytes(c.password) else []) + extra);
    var will := if Bit(flags, 4) then StringBytes(willTopic) + (StringBytes(willMessage) + credentials)
                else credentials;
    StringBytes(c.protocolName) + ([c.protocolLevel, flags] + U16(c.keepAlive) + (StringBytes(c.clientID) + will))
  }

  predicate ConnectFits(c: Connect, flags: Byte, willTopic: Bytes, willMessage: Bytes) {
    && Fits(c.protocolName) && Fits(c.clientID) && Fits(c.username) && Fits(c.password)
    && Fits(willTopic) && Fits(willMessage) && c.keepAlive <= 65535
    && (!Bit(flags, 128) ==> c.username == []) && (!Bit(flags, 64) ==> c.password == [])
  }

  lemma TakeOptionalExactly(present: bool, s: Bytes, t: Bytes, rest: Bytes)
    ensures TakeOptional(present, s) == Some((t, rest)) <==>
            if present then Fits(t) && s == StringBytes(t) + rest else t == [] && s == rest
  {
    TakeStringExactly(s, t, rest);
  }

  lemma HeaderExactly(r: Bytes, level: Byte, flags: Byte, keepAlive: nat, after: Bytes)
    requires keepAlive <= 65535
    ensures r == [level, flags] + U16(keepAlive) + after <==>
            |r| >= 4 && r[0] == level && r[1] == flags && FromU16(r[2], r[3]) == keepAlive && r[4..] == after
  {
    if |r| >= 4 && FromU16(r[2], r[3]) == keepAlive {
      FromU16ReadsBack(r[2], r[3]);
      assert r == [r[0], r[1]] + [r[2], r[3]] + r[4..];
    }
  }

  /** Every CONNECT body so laid out is accepted as what it announces... */
  lemma ConnectLaidOutIsRead(c: Connect, flags: Byte, willTopic: Bytes, willMessage: Bytes, extra: Bytes)
    requires ConnectFits(c, flags, willTopic, willMessage)
    ensures ParseConnect(ConnectLayout(c, flags, willTopic, willMessage, extra)) == Ok(c)
  {
    var afterName := if Bit(flags, 64) then StringBytes(c.password) + extra else extra;
    var credentials := if Bit(flags, 128) then StringBytes(c.username) + afterName else afterName;
    assert [] + extra == extra && [] + afterName == afterName;
    TakeOptionalExactly(Bit(flags, 64), afterName, c.password, extra);
    TakeOptionalExactly(Bit(flags, 128), credentials, c.username, afterName);
    var afterTopic := if Bit(flags, 4) then StringBytes(willMessage) + credentials else credentials;
    var will := if Bit(flags, 4) then StringBytes(willTopic) + afterTopic else credentials;
    TakeOptionalExactly(Bit(flags, 4), will, if Bit(flags, 4) then willTopic else [], afterTopic);
    TakeOptionalExactly(Bit(flags, 4), afterTopic, if Bit(flags, 4) then willMessage else [], credentials);
    var id := StringBytes(c.clientID) + will;
    TakeStringExactly(id, c.clientID, will);
    var header := [c.protocolLevel, flags] + U16(c.keepAlive) + id;
    HeaderExactly(header, c.protocolLevel, flags, c.keepAlive, id);
    TakeStringExactly(StringBytes(c.protocolName) + header, c.protocolName, header);
  }

  /** ... and every body that is accepted is so laid out: nothing else gets through, and
      nothing of the will or of what follows can get into the credentials. */
  lemma ConnectReadIsLaidOut(s: Bytes, c: Connect)
    returns (flags: Byte, willTopic: Bytes, willMessage: Bytes, extra: Bytes)
    requires ParseConnect(s) == Ok(c)
    ensures ConnectFits(c, flags, willTopic, willMessage)
    ensures s == ConnectLayout(c, flags, willTopic, willMessage, extra)
  {
    var (name, r) := TakeString(s).value;
    TakeStringExactly(s, name, r);
    flags := r[1];
    HeaderExactly(r, r[0], flags, FromU16(r[2], r[3]), r[4..]);
    var (id, r1) := TakeString(r[4..]).value;
    TakeStringExactly(r[4..], id, r1);
    var will := Bit(flags, 4);
    var (topic, r2) := TakeOptional(will, r1).value;
    TakeOptionalExactly(will, r1, topic, r2);
    var (message, r3) := TakeOptional(will, r2).value;
    TakeOptionalExactly(will, r2, message, r3);
    var (username, r4) := TakeOptional(Bit(flags, 128), r3).value;
    TakeOptionalExactly(Bit(flags, 128), r3, username, r4);
    var (password, r5) := TakeOptional(Bit(flags, 64), r4).value;
    TakeOptionalExactly(Bit(flags, 64), r4, password, r5);
    willTopic, willMessage, extra := topic, message, r5;
    FieldsInARow(Bit(flags, 128), Bit(flags, 64), r3, r4, username, password, extra);
  }

  lemma FieldsInARow(hasUser: bool, hasPassword: bool, s: Bytes, r: Bytes, user: Bytes, password: Bytes, extra: Bytes)
    requires s == if hasUser then StringBytes(user) + r else r
    requires r == if hasPassword then StringBytes(password) + extra else extra
    ensures s == (if hasUser then StringBytes(user) else [])
              + ((if hasPassword then StringBytes(password) else []) + extra)
  {
    assert [] + extra == extra && [] + r == r;
  }

  const EXAMPLE := ConnectOptions([97], 60, [117], [112], [116], [109], true, 1, true)

  const EXAMPLE_BODY: Bytes :=
    [0, 4, 77, 81, 84, 84, 4, 0xEE, 0, 60, 0, 1, 97, 0, 1, 116, 0, 1, 109, 0, 1, 117, 0, 1, 112]

  lemma ExampleFields()
    ensures StringBytes(MQTT) == [0, 4, 77, 81, 84, 84]
    ensures [4, ConnectFlags(EXAMPLE)] + U16(EXAMPLE.keepAlive) == [4, 0xEE, 0, 60]
    ensures StringBytes(EXAMPLE.clientID) == [0, 1, 97]
    ensures WillBytes(EXAMPLE) == [0, 1, 116, 0, 1, 109]
    ensures OptionalBytes(EXAMPLE.username) + OptionalBytes(EXAMPLE.password) == [0, 1, 117, 0, 1, 112]
  {
  }

  /** One packet, byte by byte, as section 3.1 lays it out: header and length, "MQTT" and
      level 4, flags, keep-alive, then client id, will, user name and password. */
  lemma ConnectExample()
    ensures ConnectBody(EXAMPLE) == EXAMPLE_BODY
    ensures Encode(Packet(1, 0, ConnectBody(EXAMPLE))) == [0x10, 25] + EXAMPLE_BODY
  {
    ExampleFields();
    assert VarintBytes(25) == [25];
  }

  // ---- SUBSCRIBE and SUBACK (sections 3.8 and 3.9) ------------------------------------------

  datatype SubscribeError = NoPacketID | BadFilter | NoQoS

  /** The filters of a SUBSCRIBE after its packet id. */
  function ParseFilters(s: Bytes): Result<seq<Bytes>, SubscribeError>
    decreases |s|
  {
    if s == [] then Ok([])
    else match TakeString(s)
      case None => Err(BadFilter)
      case Some((filter, rest)) =>
        if rest == [] then Err(NoQoS)
        else match ParseFilters(rest[1..])
          case Err(e) => Err(e)
          case Ok(filters) => Ok([filter] + filters)
  }

  function ParseSubscribe(s: Bytes): Result<(nat, seq<Bytes>), SubscribeError> {
    if |s| < 2 then Err(NoPacketID)
    else match ParseFilters(s[2..])
      case Err(e) => Err(e)
      case Ok(filters) => Ok((FromU16(s[0], s[1]), filters))
  }

  function Prepend(filters: seq<Bytes>, r: Result<seq<Bytes>, SubscribeError>): Result<seq<Bytes>, SubscribeError> {
    match r
    case Err(e) => Err(e)
    case Ok(more) => Ok(filters + more)
  }

  lemma NoFilter(topics: seq<Bytes>, s: Bytes)
    requires s != [] && TakeString(s).None?
    ensures Prepend(topics, ParseFilters(s)) == Err(BadFilter)
  {
  }

  lemma NextFilter(topics: seq<Bytes>, payload: Bytes, i: nat, filter: Bytes, j: nat)
    requires i < |payload| && j <= |payload| && TakeString(payload[i..]) == Some((filter, payload[j..]))
    ensures Prepend(topics, ParseFilters(payload[i..]))
         == if j == |payload| then Err(NoQoS) else Prepend(topics + [filter], ParseFilters(payload[j + 1..]))
  {
    if j < |payload| {
      assert payload[j..][1..] == payload[j + 1..];
      var r := ParseFilters(payload[j + 1..]);
      if r.Ok? {
        assert topics + ([filter] + r.value) == topics + [filter] + r.value;
      }
    }
  }

  lemma PrependNothing(r: Result<seq<Bytes>, SubscribeError>)
    ensures Prepend([], r) == r
  {
    if r.Ok? {
      assert [] + r.value == r.value;
    }
  }

  method DecodeSubscribe(payload: Bytes) returns (r: Result<(nat, seq<Bytes>), SubscribeError>)
    ensures r == ParseSubscribe(payload)
  {
    if |payload| < 2 {
      return Err(NoPacketID);
    }
    var packetID := FromU16(payload[0], payload[1]);
    var topics := DecodeFilters(payload, 2);
    if topics.Err? {
      return Err(topics.error);
    }
    return Ok((packetID, topics.value));
  }

  /** One turn of the loop over the filters. */
  method DecodeFilter(payload: Bytes, i: nat, ghost topics: seq<Bytes>)
    returns (r: Result<(Bytes, nat), SubscribeError>)
    requires i < |payload|
    ensures r.Err? ==> Prepend(topics, ParseFilters(payload[i..])) == Err(r.error)
    ensures r.Ok? ==>
              && i < r.value.1 <= |payload|
              && Prepend(topics, ParseFilters(payload[i..]))
                 == Prepend(topics + [r.value.0], ParseFilters(payload[r.value.1..]))
  {
    var topic := ReadString(payload, i);
    if topic.None? {
      NoFilter(topics, payload[i..]);
      return Err(BadFilter);
    }
    NextFilter(topics, payload, i, topic.value.0, topic.value.1);
    if topic.value.1 >= |payload| {
      return Err(NoQoS);
    }
    return Ok((topic.value.0, topic.value.1 + 1));
  }

  lemma PrependEnd(topics: seq<Bytes>, s: Bytes)
    requires s == []
    ensures Prepend(topics, ParseFilters(s)) == Ok(topics)
  {
    assert topics + [] == topics;
  }

  /** The loop. */
  method DecodeFilters(payload: Bytes, start: nat) returns (r: Result<seq<Bytes>, SubscribeError>)
    requires start <= |payload|
    ensures r == ParseFilters(payload[start..])
  {
    var topics: seq<Bytes>, i := [], start;
    PrependNothing(ParseFilters(payload[start..]));
    while i < |payload|
      invariant i <= |payload|
      invariant Prepend([], ParseFilters(payload[start..])) == Prepend(topics, ParseFilters(payload[i..]))
    {
      var next := DecodeFilter(payload, i, topics);
      if next.Err? {
        return Err(next.error);
      }
      topics, i := topics + [next.value.0], next.value.1;
    }
    PrependEnd(topics, payload[i..]);
    return Ok(topics);
  }

  function FilterBytes(filters: seq<Bytes>, qos: Byte): Bytes {
    if filters == [] then [] else StringBytes(filters[0]) + [qos] + FilterBytes(filters[1..], qos)
  }

  lemma {:induction false} FilterBytesAppend(a: seq<Bytes>, t: Bytes, qos: Byte)
    ensures FilterBytes(a + [t], qos) == FilterBytes(a, qos) + (StringBytes(t) + [qos])
  {
    if a == [] {
      assert (a + [t])[1..] == [];
    } else {
      FilterBytesAppend(a[1..], t, qos);
      assert (a + [t])[1..] == a[1..] + [t];
      var x, y, z := StringBytes(a[0]) + [qos], FilterBytes(a[1..], qos), StringBytes(t) + [qos];
      assert x + (y + z) == (x + y) + z;
      assert FilterBytes(a[1..] + [t], qos) == y + z;
    }
  }

  method EncodeSubscribe(packetID: nat, qos: Byte, topics: seq<Bytes>) returns (packet: Bytes)
    ensures packet == Encode(Packet(8, 2, U16(packetID) + FilterBytes(topics, qos)))
  {
    var body := U16(packetID);
    for i := 0 to |topics|
      invariant body == U16(packetID) + FilterBytes(topics[..i], qos)
    {
      FilterBytesAppend(topics[..i], topics[i], qos);
      assert topics[..i + 1] == topics[..i] + [topics[i]];
      ghost var before := body;
      body := body + StringBytes(topics[i]);
      body := body + [qos];
      assert body == before + (StringBytes(topics[i]) + [qos]);
    }
    assert topics[..|topics|] == topics;
    packet := EncodePacket(8, 2, body);
  }

  lemma {:induction false} FiltersReadBack(filters: seq<Bytes>, qos: Byte)
    ensures ParseFilters(FilterBytes(filters, qos)) == Ok(filters) <==> forall f :: f in filters ==> Fits(f)
  {
    if filters != [] {
      var first, more := filters[0], filters[1..];
      var tail := [qos] + FilterBytes(more, qos);
      assert FilterBytes(filters, qos) == StringBytes(first) + tail;
      assert filters == [first] + more;
      assert first in filters && forall f :: f in filters <==> f == first || f in more;
      StringReadsBack(first, tail);
      if Fits(first) {
        assert tail[1..] == FilterBytes(more, qos);
        FiltersReadBack(more, qos);
      }
    }
  }

  /** SUBSCRIBE round trip, over any list of filters: it reads back exactly when every
      filter fits its length prefix. */
  lemma SubscribeRoundTrip(packetID: nat, qos: Byte, filters: seq<Bytes>)
    requires packetID <= 65535
    ensures ParseSubscribe(U16(packetID) + FilterBytes(filters, qos)) == Ok((packetID, filters))
       <==> forall f :: f in filters ==> Fits(f)
  {
    assert (U16(packetID) + FilterBytes(filters, qos))[2..] == FilterBytes(filters, qos);
    FiltersReadBack(filters, qos);
  }

  /** Filters with a QoS byte each. */
  function FiltersLayout(filters: seq<Bytes>, qoss: Bytes): Bytes
    requires |filters| == |qoss|
  {
    if filters == [] then [] else StringBytes(filters[0]) + ([qoss[0]] + FiltersLayout(filters[1..], qoss[1..]))
  }

  lemma {:induction false} FiltersLaidOutAreRead(filters: seq<Bytes>, qoss: Bytes)
    requires |filters| == |qoss| && forall f :: f in filters ==> Fits(f)
    ensures ParseFilters(FiltersLayout(filters, qoss)) == Ok(filters)
  {
    if filters != [] {
      var first, more, rest := filters[0], filters[1..], FiltersLayout(filters[1..], qoss[1..]);
      assert filters == [first] + more;
      assert first in filters && forall f :: f in more ==> f in filters;
      FiltersLaidOutAreRead(more, qoss[1..]);
      TakeStringExactly(StringBytes(first) + ([qoss[0]] + rest), first, [qoss[0]] + rest);
      assert ([qoss[0]] + rest)[1..] == rest;
    }
  }

  lemma FiltersLayoutMore(first: Bytes, more: seq<Bytes>, rest: Bytes, qoss: Bytes)
    requires |more| == |qoss| && rest != [] && rest[1..] == FiltersLayout(more, qoss)
    ensures StringBytes(first) + rest == FiltersLayout([first] + more, [rest[0]] + qoss)
  {
    assert ([first] + more)[1..] == more && ([rest[0]] + qoss)[1..] == qoss;
    assert rest == [rest[0]] + rest[1..];
  }

  lemma {:induction false} FiltersReadAreLaidOut(s: Bytes, filters: seq<Bytes>) returns (qoss: Bytes)
    requires ParseFilters(s) == Ok(filters)
    ensures |qoss| == |filters| && s == FiltersLayout(filters, qoss) && forall f :: f in filters ==> Fits(f)
    decreases |s|
  {
    if s == [] {
      qoss := [];
    } else {
      var (first, rest) := TakeString(s).value;
      TakeStringExactly(s, first, rest);
      var more := ParseFilters(rest[1..]).value;
      qoss := FiltersReadAreLaidOut(rest[1..], more);
      FiltersLayoutMore(first, more, rest, qoss);
      qoss := [rest[0]] + qoss;
    }
  }

  ghost predicate SubscribeLaidOut(s: Bytes, id: nat, filters: seq<Bytes>, qoss: Bytes) {
    && id <= 65535 && (forall f :: f in filters ==> Fits(f))
    && |qoss| == |filters| && s == U16(id) + FiltersLayout(filters, qoss)
  }

  lemma SubscribeIsRead(s: Bytes, id: nat, filters: seq<Bytes>, qoss: Bytes)
    requires SubscribeLaidOut(s, id, filters, qoss)
    ensures ParseSubscribe(s) == Ok((id, filters))
  {
    FiltersLaidOutAreRead(filters, qoss);
    U16ReadsBack(id, FiltersLayout(filters, qoss));
  }

  lemma SubscribeWasLaidOut(s: Bytes, id: nat, filters: seq<Bytes>) returns (qoss: Bytes)
    requires ParseSubscribe(s) == Ok((id, filters))
    ensures SubscribeLaidOut(s, id, filters, qoss)
  {
    qoss := FiltersReadAreLaidOut(s[2..], filters);
    FromU16ReadsBack(s[0], s[1]);
    assert s == [s[0], s[1]] + s[2..];
  }

  /** A SUBSCRIBE body is accepted with this id and these filters exactly when it is the id
      in two bytes and then every filter, in order, with some QoS byte after it. */
  lemma SubscribeAcceptedExactly(s: Bytes, id: nat, filters: seq<Bytes>)
    ensures ParseSubscribe(s) == Ok((id, filters)) <==> exists qoss :: SubscribeLaidOut(s, id, filters, qoss)
  {
    if ParseSubscribe(s) == Ok((id, filters)) {
      var qoss := SubscribeWasLaidOut(s, id, filters);
    }
    if qoss :| SubscribeLaidOut(s, id, filters, qoss) {
      SubscribeIsRead(s, id, filters, qoss);
    }
  }

  function Zeros(n: nat): (r: Bytes)
    ensures |r| == n && forall i :: 0 <= i < n ==> r[i] == 0
  {
    seq(n, i => 0)
  }

  method EncodeSuback(packetID: nat, n: nat) returns (packet: Bytes)
    ensures packet == Encode(Packet(9, 0, U16(packetID) + Zeros(n)))
  {
    var body := U16(packetID);
    for i := 0 to n
      invariant body == U16(packetID) + Zeros(i)
    {
      body := body + [0];
    }
    packet := EncodePacket(9, 0, body);
  }

  function DecodeSuback(payload: Bytes): Option<(nat, Bytes)> {
    if |payload| < 3 then None else Some((FromU16(payload[0], payload[1]), payload[2..]))
  }

  /** A SUBACK body is read exactly when it is the id in two bytes and at least one code. */
  lemma SubackDecodedExactly(s: Bytes, id: nat, codes: Bytes)
    ensures DecodeSuback(s) == Some((id, codes)) <==> codes != [] && id <= 65535 && s == U16(id) + codes
  {
    if id <= 65535 {
      U16ReadsBack(id, codes);
    }
    if |s| >= 3 {
      FromU16ReadsBack(s[0], s[1]);
      assert s == [s[0], s[1]] + s[2..];
    }
  }

  /** The SUBACK the server writes for a SUBSCRIBE body it accepts carries the same packet
      id and one grant per filter. A client decodes it exactly when there was a filter:
      the server also accepts a SUBSCRIBE without any, and answers it with a body the
      decoder calls truncated. */
  lemma SubackMatches(body: Bytes)
    requires ParseSubscribe(body).Ok?
    ensures var (id, filters) := ParseSubscribe(body).value;
      var answer := U16(id) + Zeros(|filters|);
      && answer[..2] == body[..2] && |answer| == 2 + |filters|
      && (DecodeSuback(answer) == Some((id, Zeros(|filters|))) <==> filters != [])
      && (filters == [] <==> |body| == 2)
  {
    var (id, filters) := ParseSubscribe(body).value;
    assert FromU16(body[0], body[1]) / 256 == body[0];
    assert U16(id) == body[..2];
    assert (U16(id) + Zeros(|filters|))[2..] == Zeros(|filters|);
  }

  // ---- PUBLISH (section 3.3) ----------------------------------------------------------------

  datatype Publish = Publish(topic: Bytes, packetID: nat, payload: Bytes)

  datatype PublishError = BadTopic | TruncatedID

  function QoS(flags: Byte): int {
    flags / 2 % 4
  }

  predicate Retained(flags: Byte) {
    Bit(flags, 1)
  }

  function DecodePublish(s: Bytes, qos: int): Result<Publish, PublishError> {
    match TakeString(s)
    case None => Err(BadTopic)
    case Some((topic, rest)) =>
      if qos <= 0 then Ok(Publish(topic, 0, rest))
      else if |rest| < 2 then Err(TruncatedID)
      else Ok(Publish(topic, FromU16(rest[0], rest[1]), rest[2..]))
  }

  /** The three PUBLISH packets the code sends: plain, retained, and QoS 1. */
  function PublishPacket(topic: Bytes, payload: Bytes, retain: bool): Packet {
    Packet(3, Mask(retain, 1), StringBytes(topic) + payload)
  }

  function PublishQoS1Packet(topic: Bytes, payload: Bytes, packetID: nat, retain: bool): Packet {
    Packet(3, 2 + Mask(retain, 1), StringBytes(topic) + U16(packetID) + payload)
  }

  predicate PublishLaidOut(s: Bytes, qos: int, p: Publish) {
    && Fits(p.topic) && p.packetID <= 65535 && (qos <= 0 ==> p.packetID == 0)
    && s == StringBytes(p.topic) + (if qos > 0 then U16(p.packetID) + p.payload else p.payload)
  }

  lemma PublishIsRead(s: Bytes, qos: int, p: Publish)
    requires PublishLaidOut(s, qos, p)
    ensures DecodePublish(s, qos) == Ok(p)
  {
    TakeStringExactly(s, p.topic, if qos > 0 then U16(p.packetID) + p.payload else p.payload);
    U16ReadsBack(p.packetID, p.payload);
  }

  lemma PublishWasLaidOut(s: Bytes, qos: int)
    requires DecodePublish(s, qos).Ok?
    ensures PublishLaidOut(s, qos, DecodePublish(s, qos).value)
  {
    var (topic, rest) := TakeString(s).value;
    TakeStringExactly(s, topic, rest);
    if qos > 0 {
      FromU16ReadsBack(rest[0], rest[1]);
      assert rest == [rest[0], rest[1]] + rest[2..];
    }
  }

  /** A PUBLISH body is read as this message exactly when it is its topic, with a QoS the
      packet id in two bytes, and the payload, which is all the rest. */
  lemma PublishDecodedExactly(s: Bytes, qos: int, p: Publish)
    ensures DecodePublish(s, qos) == Ok(p) <==> PublishLaidOut(s, qos, p)
  {
    if PublishLaidOut(s, qos, p) {
      PublishIsRead(s, qos, p);
    }
    if DecodePublish(s, qos).Ok? {
      PublishWasLaidOut(s, qos);
    }
  }

  lemma RetainFlag(retain: bool, qos: nat)
    requires qos <= 1
    ensures Retained(2 * qos + Mask(retain, 1)) == retain && QoS(2 * qos + Mask(retain, 1)) == qos
  {
  }

  lemma PublishRoundTrip(topic: Bytes, payload: Bytes, retain: bool)
    requires Fits(topic)
    ensures var p := PublishPacket(topic, payload, retain);
      Retained(p.flags) == retain && DecodePublish(p.payload, QoS(p.flags)) == Ok(Publish(topic, 0, payload))
  {
    RetainFlag(retain, 0);
    StringReadsBack(topic, payload);
  }

  lemma PublishQoS1RoundTrip(topic: Bytes, payload: Bytes, packetID: nat, retain: bool)
    requires Fits(topic) && packetID <= 65535
    ensures var p := PublishQoS1Packet(topic, payload, packetID, retain);
      Retained(p.flags) == retain && DecodePublish(p.payload, QoS(p.flags)) == Ok(Publish(topic, packetID, payload))
  {
    RetainFlag(retain, 1);
    var rest := U16(packetID) + payload;
    StringReadsBack(topic, rest);
    assert StringBytes(topic) + U16(packetID) + payload == StringBytes(topic) + rest;
    U16ReadsBack(packetID, payload);
  }
}
