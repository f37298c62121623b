/** The PMS5003T binary frame protocol as pure functions: the 16-bit checksum,
    big-endian words, the 7-byte outbound command frame, the validity check of
    the 32-byte measurement frame, the field decode as the driver performs it,
    and a reference encoder of measurement frames used to state round trips. */
module Frames {
  import opened Protocol

  const START1: byte := 0x42
  const START2: byte := 0x4D
  /** Length of an outbound command frame. */
  const COMMAND_LEN: nat := 7
  /** Length of an inbound measurement frame. */
  const FRAME_LEN: nat := 32
  /** Number of leading bytes of a measurement frame the checksum covers. */
  const CHECKED_LEN: nat := 30
  /** Frame length announced in bytes 2-3 of a measurement frame. */
  const ANNOUNCED_LEN: u16 := 28

  const WRAP: int := 0x1_0000

  /** The plain (unbounded) sum of the bytes of `s`. */
  function Sum(s: seq<byte>): (total: nat)
  {
    if s == [] then 0 else Sum(s[..|s| - 1]) + s[|s| - 1] as nat
  }

  /** The checksum: the sum of the bytes, wrapped to 16 bits. It is what a
      `uint16_t` accumulator holds after adding the bytes one at a time: zero
      for no bytes, and each further byte is added modulo 2^16. */
  function Check16(s: seq<byte>): (c: u16)
    ensures s == [] ==> c == 0
    ensures s != [] ==>
      c as int == (Sum(s[..|s| - 1]) % WRAP + s[|s| - 1] as int) % WRAP
  {
    var c := (Sum(s) % WRAP) as u16;
    if s == [] then c
    else WrapStep(Sum(s[..|s| - 1]), s[|s| - 1] as int); c
  }

  /** One step of the wrapping accumulator agrees with wrapping the full sum. */
  lemma WrapStep(total: int, b: int)
    requires total >= 0 && b >= 0
    ensures ((total % WRAP) + b) % WRAP == (total + b) % WRAP
  {
  }

  lemma {:induction false} SumAppend(a: seq<byte>, b: seq<byte>)
    ensures Sum(a + b) == Sum(a) + Sum(b)
  {
    if b == [] {
      assert a + b == a;
    } else {
      var b' := b[..|b| - 1];
      assert (a + b)[..|a + b| - 1] == a + b';
      SumAppend(a, b');
    }
  }

  /** Changing one byte changes the sum by exactly the difference. */
  lemma SumUpdate(s: seq<byte>, i: nat, b: byte)
    requires i < |s|
    ensures Sum(s[i := b]) == Sum(s) - s[i] as int + b as int
  {
    assert s == s[..i] + [s[i]] + s[i + 1..];
    assert s[i := b] == s[..i] + [b] + s[i + 1..];
    SumAppend(s[..i] + [s[i]], s[i + 1..]);
    SumAppend(s[..i] + [b], s[i + 1..]);
    SumAppend(s[..i], [s[i]]);
    SumAppend(s[..i], [b]);
  }

  /** Trailing zero bytes add nothing to the checksum (the command frame is
      summed over all seven bytes while its last two are still zero). */
  lemma PaddedChecksum(s: seq<byte>, k: nat)
    requires k <= |s|
    requires forall i :: k <= i < |s| ==> s[i] == 0
    ensures Check16(s) == Check16(s[..k])
  {
    ZeroSum(s[k..]);
    SumAppend(s[..k], s[k..]);
    assert s[..k] + s[k..] == s;
  }

  lemma {:induction false} ZeroSum(z: seq<byte>)
    requires forall i :: 0 <= i < |z| ==> z[i] == 0
    ensures Sum(z) == 0
  {
    if z != [] {
      ZeroSum(z[..|z| - 1]);
    }
  }

  /** The word stored big-endian at `p[i]`, `p[i+1]` (`p[i] << 8 | p[i+1]` on
      unsigned bytes). */
  function BigEndian(p: seq<byte>, i: nat): (w: u16)
    requires i + 1 < |p|
    ensures Hi(w) == p[i] && Lo(w) == p[i + 1]
  {
    (p[i] as int * 0x100 + p[i + 1] as int) as u16
  }

  /** The high byte of a word (`c >> 8`). */
  function Hi(c: u16): (hi: byte)
  {
    (c as int / 0x100) as byte
  }

  /** The low byte of a word (`c & 0x00FF`). */
  function Lo(c: u16): (lo: byte)
  {
    (c as int % 0x100) as byte
  }

  /** A word as two big-endian bytes: the inverse of `BigEndian`. */
  function Split(c: u16): (r: seq<byte>)
    ensures |r| == 2 && BigEndian(r, 0) == c
  {
    [Hi(c), Lo(c)]
  }

  /** Two bytes that read as a word are that word's split: a 16-bit word has
      exactly one big-endian encoding. */
  lemma SplitUnique(p: seq<byte>, i: nat)
    requires i + 1 < |p|
    ensures p[i..i + 2] == Split(BigEndian(p, i))
  {
  }

  /** A body followed by its big-endian checksum, as both the driver (for
      commands) and the sensor (for measurements) frame their messages. */
  function Seal(body: seq<byte>): (f: seq<byte>)
    ensures |f| == |body| + 2 && f[..|body|] == body
    ensures BigEndian(f, |body|) == Check16(body)
  {
    body + Split(Check16(body))
  }

  /** The 7-byte frame `send_command(cmd, [d0, d1])` writes:
      `0x42 0x4D cmd d0 d1 chk_hi chk_lo`. */
  function CommandFrame(cmd: byte, d0: byte, d1: byte): (f: seq<byte>)
    ensures |f| == COMMAND_LEN
  {
    Seal([START1, START2, cmd, d0, d1])
  }

  /** The wire-format invariant of a command frame, stated independently of
      `CommandFrame`: start bytes, opcode, arguments, and a checksum field
      equal to the 16-bit sum of the first five bytes. */
  ghost predicate IsCommandFrame(f: seq<byte>, cmd: byte, d0: byte, d1: byte)
  {
    && |f| == COMMAND_LEN
    && f[0] == START1 && f[1] == START2
    && f[2] == cmd && f[3] == d0 && f[4] == d1
    && f[5] as int * 0x100 + f[6] as int == Sum(f[..5]) % WRAP
  }

  /** `CommandFrame` builds exactly the frames that satisfy the wire-format
      invariant: it is one, and it is the only one with those contents. */
  lemma CommandFrameCharacterized(f: seq<byte>, cmd: byte, d0: byte, d1: byte)
    ensures IsCommandFrame(f, cmd, d0, d1) <==> f == CommandFrame(cmd, d0, d1)
  {
    var g := CommandFrame(cmd, d0, d1);
    assert g[..5] == [START1, START2, cmd, d0, d1];
    assert IsCommandFrame(g, cmd, d0, d1);
    if IsCommandFrame(f, cmd, d0, d1) {
      assert f[..5] == g[..5];
      SplitUnique(f, 5);
      assert f == f[..5] + f[5..7];
    }
  }

  /** True when the frame begins with the start bytes `0x42 0x4D`. */
  predicate HasStartBytes(p: seq<byte>)
    requires |p| >= 2
  {
    p[0] == START1 && p[1] == START2
  }

  /** `check_packet_validity(packet, n)`: the start bytes are checked first,
      then the checksum of bytes [0, 30) against the big-endian word in bytes
      30-31. The length argument `n` is accepted and ignored. */
  function CheckPacketValidity(packet: seq<byte>, n: nat): (r: Status)
    requires |packet| >= FRAME_LEN
    ensures !HasStartBytes(packet) ==> r == StartBitError
    ensures HasStartBytes(packet) ==>
      (r == Ok <==> Sum(packet[..CHECKED_LEN]) % WRAP == packet[30] as int * 0x100 + packet[31] as int)
    ensures HasStartBytes(packet) && r != Ok ==> r == CheckBitError
  {
    var checkBytes := BigEndian(packet, 30);
    if packet[0] != START1 || packet[1] != START2 then StartBitError
    else if Check16(packet[..CHECKED_LEN]) != checkBytes then CheckBitError
    else Ok
  }

  /** The length argument never affects the verdict. */
  lemma ValidityIgnoresLength(packet: seq<byte>, n: nat, k: nat)
    requires |packet| >= FRAME_LEN
    ensures CheckPacketValidity(packet, n) == CheckPacketValidity(packet, k)
  {
  }

  /** A 32-byte frame is accepted exactly when it starts with the start bytes
      and is the seal of its first 30 bytes. */
  lemma AcceptedIffSealed(packet: seq<byte>, n: nat)
    requires |packet| == FRAME_LEN
    ensures CheckPacketValidity(packet, n) == Ok <==>
      HasStartBytes(packet) && packet == Seal(packet[..CHECKED_LEN])
  {
  }

  /** Changing either start byte of an accepted frame makes it a start-byte
      error, whatever the checksum says. */
  lemma CorruptStartByte(packet: seq<byte>, n: nat, i: nat, b: byte)
    requires |packet| == FRAME_LEN && CheckPacketValidity(packet, n) == Ok
    requires i < 2 && b != packet[i]
    ensures CheckPacketValidity(packet[i := b], n) == StartBitError
  {
  }

  /** Changing any byte in [2, 30) of an accepted frame without updating its
      checksum makes it a checksum error. */
  lemma CorruptCheckedByte(packet: seq<byte>, n: nat, i: nat, b: byte)
    requires |packet| == FRAME_LEN && CheckPacketValidity(packet, n) == Ok
    requires 2 <= i < CHECKED_LEN && b != packet[i]
    ensures CheckPacketValidity(packet[i := b], n) == CheckBitError
  {
    var q := packet[i := b];
    assert q[..CHECKED_LEN] == packet[..CHECKED_LEN][i := b];
    SumUpdate(packet[..CHECKED_LEN], i, b);
    var s := Sum(packet[..CHECKED_LEN]) as int;
    var s' := Sum(q[..CHECKED_LEN]) as int;
    assert s' == s - packet[i] as int + b as int;
    assert q[30] == packet[30] && q[31] == packet[31];
    assert s' % WRAP != s % WRAP;
  }

  /** The twelve measurement fields, in the order the driver declares them. */
  datatype Measurement = Measurement(
    pm10Std: u16, pm25Std: u16, pm100Std: u16,
    pm10Atm: u16, pm25Atm: u16, cnsAtm: u16,
    part03: u16, part05: u16, part10: u16,
    part25: u16, part50: u16, part100: u16)

  /** The value every field holds after construction. */
  const Zero := Measurement(0, 0, 0, 0, 0, 0, 0, 0, 0, 0, 0, 0)

  /** `unpack_into_struct(packet)` as the code performs it, starting from the
      fields in `m`: each field is overwritten from a big-endian byte pair,
      except that `pm10Atm` is assigned from bytes 10-11 and then again from
      bytes 12-13 (the second assignment wins), and `pm25Atm` is never
      written. */
  function Unpack(m: Measurement, packet: seq<byte>): (r: Measurement)
    requires |packet| >= 28
    ensures r.pm25Atm == m.pm25Atm
    ensures Split(r.pm10Std) == packet[4..6] && Split(r.pm25Std) == packet[6..8]
    ensures Split(r.pm100Std) == packet[8..10]
    ensures Split(r.pm10Atm) == packet[12..14] && Split(r.cnsAtm) == packet[14..16]
    ensures Split(r.part03) == packet[16..18] && Split(r.part05) == packet[18..20]
    ensures Split(r.part10) == packet[20..22] && Split(r.part25) == packet[22..24]
    ensures Split(r.part50) == packet[24..26] && Split(r.part100) == packet[26..28]
  {
    Measurement(
      BigEndian(packet, 4), BigEndian(packet, 6), BigEndian(packet, 8),
      BigEndian(packet, 12), m.pm25Atm, BigEndian(packet, 14),
      BigEndian(packet, 16), BigEndian(packet, 18), BigEndian(packet, 20),
      BigEndian(packet, 22), BigEndian(packet, 24), BigEndian(packet, 26))
  }

  /** The decode reads only bytes 4-9 and 12-27: the length bytes 2-3, the
      overwritten pair 10-11, the reserved bytes 28-29 and the checksum 30-31
      affect no field. */
  lemma UnpackIgnoresUnreadBytes(m: Measurement, p: seq<byte>, q: seq<byte>)
    requires |p| >= 28 && |q| >= 28
    requires p[4..10] == q[4..10] && p[12..28] == q[12..28]
    ensures Unpack(m, p) == Unpack(m, q)
  {
  }

  /** Decoding a frame keeps every earlier value of `pm25Atm` and nothing
      else: the last decoded frame wins for the other eleven fields. */
  lemma UnpackLastWins(m: Measurement, p: seq<byte>, q: seq<byte>)
    requires |p| >= 28 && |q| >= 28
    ensures Unpack(Unpack(m, p), q) == Unpack(m, q)
    ensures Unpack(m, q).pm25Atm == m.pm25Atm
  {
  }

  /** Reference encoder: the 32-byte measurement frame a sensor sends for `m`,
      with the twelve fields in frame order (so `pm25Atm` in bytes 12-13),
      announced length 28 and zero reserved bytes, sealed with its checksum. */
  function Pack(m: Measurement): (f: seq<byte>)
    ensures |f| == FRAME_LEN
  {
    Seal(PackBody(m))
  }

  /** The 30 checksummed bytes of `Pack(m)`. */
  function PackBody(m: Measurement): (b: seq<byte>)
    ensures |b| == CHECKED_LEN
  {
    [START1, START2, Hi(ANNOUNCED_LEN), Lo(ANNOUNCED_LEN),
     Hi(m.pm10Std), Lo(m.pm10Std), Hi(m.pm25Std), Lo(m.pm25Std),
     Hi(m.pm100Std), Lo(m.pm100Std), Hi(m.pm10Atm), Lo(m.pm10Atm),
     Hi(m.pm25Atm), Lo(m.pm25Atm), Hi(m.cnsAtm), Lo(m.cnsAtm),
     Hi(m.part03), Lo(m.part03), Hi(m.part05), Lo(m.part05),
     Hi(m.part10), Lo(m.part10), Hi(m.part25), Lo(m.part25),
     Hi(m.part50), Lo(m.part50), Hi(m.part100), Lo(m.part100),
     0, 0]
  }

  /** Every frame built by the reference encoder passes the validity check. */
  lemma PackAccepted(m: Measurement, n: nat)
    ensures CheckPacketValidity(Pack(m), n) == Ok
  {
  }

  /** Round trip through the reference encoder and the driver's decode: every
      field comes back except that `pm10Atm` receives the atmospheric PM2.5
      value and `pm25Atm` keeps its previous value. So the decode loses the
      atmospheric PM1.0 value whenever it differs from the PM2.5 one. */
  lemma PackUnpack(old_: Measurement, m: Measurement)
    ensures Unpack(old_, Pack(m)) == m.(pm10Atm := m.pm25Atm, pm25Atm := old_.pm25Atm)
    ensures m.pm10Atm != m.pm25Atm ==> Unpack(old_, Pack(m)) != m
  {
  }

  /** A worked frame: announced length 28, fields 10, 20, 30, 40, 50, 60, 5,
      10, 15, 20, 25, 30 in frame order and zero reserved bytes. The sum of
      its 30 checked bytes is 0x01E6. */
  lemma ExampleChecksum()
    ensures Check16(EXAMPLE_BODY) == 0x01E6
  {
    SumFromStart(EXAMPLE_BODY);
    ExampleSum();
  }

  lemma ExampleSum()
    ensures SumFrom(EXAMPLE_BODY, 0) == 486
  {
    var b := EXAMPLE_BODY;
    assert SumFrom(b, 26) == 30;
    assert SumFrom(b, 22) == 75;
    assert SumFrom(b, 18) == 100;
    assert SumFrom(b, 14) == 165;
    assert SumFrom(b, 10) == 255;
    assert SumFrom(b, 6) == 305;
    assert SumFrom(b, 2) == 343;
    assert SumFrom(b, 0) == 486;
  }

  /** With checksum 0x01E6 the worked frame is accepted, and the decode puts
      50 (bytes 12-13) in `pm10Atm` and leaves `pm25Atm` alone; with checksum
      0x033C in its place it is a checksum error. */
  lemma ExampleFrame()
    ensures CheckPacketValidity(EXAMPLE_BODY + [0x01, 0xE6], CHECKED_LEN) == Ok
    ensures Unpack(Zero, EXAMPLE_BODY + [0x01, 0xE6])
      == Measurement(10, 20, 30, 50, 0, 60, 5, 10, 15, 20, 25, 30)
    ensures CheckPacketValidity(EXAMPLE_BODY + [0x03, 0x3C], CHECKED_LEN) == CheckBitError
  {
    var b := EXAMPLE_BODY;
    ExampleChecksum();
    assert (b + [0x01, 0xE6])[..CHECKED_LEN] == b;
    assert (b + [0x03, 0x3C])[..CHECKED_LEN] == b;
  }

  const EXAMPLE_BODY: seq<byte> :=
    [0x42, 0x4D, 0x00, 0x1C, 0x00, 0x0A, 0x00, 0x14, 0x00, 0x1E, 0x00, 0x28,
     0x00, 0x32, 0x00, 0x3C, 0x00, 0x05, 0x00, 0x0A, 0x00, 0x0F, 0x00, 0x14,
     0x00, 0x19, 0x00, 0x1E, 0x00, 0x00]

  /** The sum of `s[i..]`, added from the front. */
  function SumFrom(s: seq<byte>, i: nat): (total: nat)
    decreases |s| - i
  {
    if i >= |s| then 0 else s[i] as nat + SumFrom(s, i + 1)
  }

  lemma {:induction false} SumFromStart(s: seq<byte>)
    ensures Sum(s) == SumFrom(s, 0)
  {
    if s != [] {
      var init := s[..|s| - 1];
      SumFromStart(init);
      SumFromPrefix(s, 0);
    }
  }

  lemma {:induction false} SumFromPrefix(s: seq<byte>, i: nat)
    requires s != [] && i < |s|
    ensures SumFrom(s, i) == SumFrom(s[..|s| - 1], i) + s[|s| - 1] as nat
    decreases |s| - i
  {
    if i + 1 < |s| {
      SumFromPrefix(s, i + 1);
    }
  }
}
