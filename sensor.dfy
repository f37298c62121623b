/** The driver object `PMS5003T`: twelve 16-bit measurement fields that a
    validated frame overwrites, the checksum loop, the command encoder and the
    command helpers, and the receive cycle. The serial transport is not
    modelled: the 32 bytes a read delivers are a method parameter, and each
    frame written is appended to the ghost log `sent`. */
module Sensor {
  import opened Protocol
  import opened Frames

  /** True when every frame in `frames` has the full 32-byte length. */
  ghost predicate AllFrames(frames: seq<seq<byte>>)
  {
    forall i :: 0 <= i < |frames| ==> |frames[i]| == FRAME_LEN
  }

  /** The fields after construction and then decoding `frames` in order. */
  ghost function Replay(frames: seq<seq<byte>>): (m: Measurement)
    requires AllFrames(frames)
  {
    if frames == [] then Zero
    else Unpack(Replay(frames[..|frames| - 1]), frames[|frames| - 1])
  }

  /** Whatever frames were accepted before, the fields hold exactly the decode
      of the last one (or zero before the first), and atmospheric PM2.5 is
      always zero. */
  lemma {:induction false} ReplayLatest(frames: seq<seq<byte>>)
    requires AllFrames(frames)
    ensures Replay(frames).pm25Atm == 0
    ensures frames != [] ==> Replay(frames) == Unpack(Zero, frames[|frames| - 1])
  {
    if frames != [] {
      var init := frames[..|frames| - 1];
      assert AllFrames(init) by {
        forall i | 0 <= i < |init| ensures |init[i]| == FRAME_LEN {
          assert init[i] == frames[i];
        }
      }
      ReplayLatest(init);
    }
  }

  class PMS5003T {
    var pm10Std: u16
    var pm25Std: u16
    var pm100Std: u16
    var pm10Atm: u16
    var pm25Atm: u16
    var cnsAtm: u16
    var part03: u16
    var part05: u16
    var part10: u16
    var part25: u16
    var part50: u16
    var part100: u16

    /** Every frame written to the transport, oldest first. */
    ghost var sent: seq<seq<byte>>
    /** Every received frame that passed the validity check, oldest first. */
    ghost var accepted: seq<seq<byte>>

    /** The twelve fields as one value. */
    ghost function Reading(): (m: Measurement)
      reads this
    {
      Measurement(pm10Std, pm25Std, pm100Std, pm10Atm, pm25Atm, cnsAtm,
                  part03, part05, part10, part25, part50, part100)
    }

    /** The fields are what construction and the accepted frames made them. */
    ghost predicate Valid()
      reads this
    {
      AllFrames(accepted) && Reading() == Replay(accepted)
    }

    /** The most recently accepted frame, when there is one. */
    ghost function Latest(): (frame: seq<byte>)
      reads this
      requires Valid() && accepted != []
    {
      accepted[|accepted| - 1]
    }

    /** All twelve fields start at zero; nothing has been sent or accepted. */
    constructor ()
      ensures Valid()
      ensures Reading() == Zero
      ensures sent == [] && accepted == []
    {
      pm10Std := 0;
      pm25Std := 0;
      pm100Std := 0;
      pm10Atm := 0;
      pm25Atm := 0;
      cnsAtm := 0;
      part03 := 0;
      part05 := 0;
      part10 := 0;
      part25 := 0;
      part50 := 0;
      part100 := 0;
      sent := [];
      accepted := [];
    }

    /** `calculate_check(packet, n)`: the sum of the first `n` bytes in a
        16-bit accumulator that wraps on every addition. */
    method CalculateCheck(packet: array<byte>, n: nat) returns (sum: u16)
      requires n <= packet.Length
      ensures sum as int == Sum(packet[..n]) % WRAP
    {
      sum := 0;
      var i := 0;
      while i < n
        invariant i <= n
        invariant sum as int == Sum(packet[..i]) % WRAP
      {
        assert packet[..i + 1][..i] == packet[..i];
        WrapStep(Sum(packet[..i]), packet[i] as int);
        sum := ((sum as int + packet[i] as int) % WRAP) as u16;
        i := i + 1;
      }
    }

    /** `send_command(cmd, data)`: builds `0x42 0x4D cmd data[0] data[1] 0 0`,
        sums all seven bytes and patches the checksum into the last two, then
        writes the frame. It always reports `Ok`. */
    method SendCommand(cmd: byte, data: seq<byte>) returns (status: Status)
      requires |data| >= 2
      modifies this`sent
      ensures status == Ok
      ensures sent == old(sent) + [CommandFrame(cmd, data[0], data[1])]
    {
      var packet := new byte[7] [START1, START2, cmd, data[0], data[1], 0, 0];
      var head := packet[..5];
      assert head == [START1, START2, cmd, data[0], data[1]];
      PaddedChecksum(packet[..], 5);
      assert packet[..][..5] == head && packet[..7] == packet[..];
      var checkBytes := CalculateCheck(packet, 7);
      packet[5] := Hi(checkBytes);
      packet[6] := Lo(checkBytes);
      assert packet[..] == head + Split(Check16(head));
      sent := sent + [packet[..]];
      status := Ok;
    }

    /** `request_data()`: asks a sensor in passive mode for one frame. */
    method RequestData() returns (status: Status)
      modifies this`sent
      ensures status == Ok
      ensures sent == old(sent) + [CommandFrame(Opcode(ReadRequestPassive), 0x00, 0x00)]
    {
      var _ := SendCommand(Opcode(ReadRequestPassive), [0x00, 0x00]);
      status := Ok;
    }

    /** `passive_mode(enable)`: switches the sensor to passive mode when
        `enable` holds and to active mode otherwise. */
    method PassiveMode(enable: bool) returns (status: Status)
      modifies this`sent
      ensures status == Ok
      ensures sent == old(sent) +
        [CommandFrame(Opcode(ChangeMode), 0x00, if enable then ARG_PASSIVE else ARG_ACTIVE)]
    {
      var _ := SendCommand(Opcode(ChangeMode), [0x00, SwitchArg(enable)]);
      status := Ok;
    }

    /** `sleep(enable)`: puts the sensor to sleep when `enable` holds and
        wakes it up otherwise. */
    method Sleep(enable: bool) returns (status: Status)
      modifies this`sent
      ensures status == Ok
      ensures sent == old(sent) +
        [CommandFrame(Opcode(SleepSet), 0x00, if enable then ARG_SLEEP else ARG_WAKEUP)]
    {
      var _ := SendCommand(Opcode(SleepSet), [0x00, SwitchArg(enable)]);
      status := Ok;
    }

    /** `unpack_into_struct(packet)`: overwrites the fields from big-endian
        byte pairs, in the code's order, including its double assignment of
        `pm10Atm`. */
    method UnpackIntoStruct(packet: seq<byte>)
      requires |packet| >= 28
      modifies this
      ensures Reading() == Unpack(old(Reading()), packet)
      ensures sent == old(sent) && accepted == old(accepted)
    {
      ghost var expected := Unpack(Reading(), packet);
      pm10Std := BigEndian(packet, 4);
      pm25Std := BigEndian(packet, 6);
      pm100Std := BigEndian(packet, 8);
      pm10Atm := BigEndian(packet, 10);
      pm10Atm := BigEndian(packet, 12);
      cnsAtm := BigEndian(packet, 14);
      part03 := BigEndian(packet, 16);
      part05 := BigEndian(packet, 18);
      part10 := BigEndian(packet, 20);
      part25 := BigEndian(packet, 22);
      part50 := BigEndian(packet, 24);
      part100 := BigEndian(packet, 26);
      assert Reading() == expected;
    }

    /** `receive_data()` on the 32 bytes the transport delivered: a frame that
        fails the validity check is reported and changes nothing; a valid one
        is decoded into the fields. */
    method ReceiveData(packet: seq<byte>) returns (status: Status)
      requires Valid() && |packet| == FRAME_LEN
      modifies this
      ensures Valid() && sent == old(sent)
      ensures status == CheckPacketValidity(packet, CHECKED_LEN)
      ensures status == Ok ==>
        accepted == old(accepted) + [packet] && Reading() == Unpack(old(Reading()), packet)
      ensures status != Ok ==>
        accepted == old(accepted) && Reading() == old(Reading())
    {
      status := CheckPacketValidity(packet, CHECKED_LEN);
      if status != Ok {
        return;
      }
      ghost var before := accepted;
      UnpackIntoStruct(packet);
      accepted := accepted + [packet];
      assert accepted[..|accepted| - 1] == before;
      status := Ok;
    }

    /** `update_data()`: one passive-mode cycle, a read request followed by a
        receive; its status is the receive's. */
    method UpdateData(packet: seq<byte>) returns (status: Status)
      requires Valid() && |packet| == FRAME_LEN
      modifies this
      ensures Valid()
      ensures sent == old(sent) + [CommandFrame(Opcode(ReadRequestPassive), 0x00, 0x00)]
      ensures status == CheckPacketValidity(packet, CHECKED_LEN)
      ensures status == Ok ==>
        accepted == old(accepted) + [packet] && Reading() == Unpack(old(Reading()), packet)
      ensures status != Ok ==>
        accepted == old(accepted) && Reading() == old(Reading())
    {
      status := RequestData();
      if status == Ok {
        status := ReceiveData(packet);
      }
    }

    function GetPM10Std(): (r: u16)
      reads this
      requires Valid()
      ensures accepted == [] ==> r == 0
      ensures accepted != [] ==> r == BigEndian(Latest(), 4)
    {
      ReplayLatest(accepted);
      pm10Std
    }

    function GetPM25Std(): (r: u16)
      reads this
      requires Valid()
      ensures accepted == [] ==> r == 0
      ensures accepted != [] ==> r == BigEndian(Latest(), 6)
    {
      ReplayLatest(accepted);
      pm25Std
    }

    function GetPM100Std(): (r: u16)
      reads this
      requires Valid()
      ensures accepted == [] ==> r == 0
      ensures accepted != [] ==> r == BigEndian(Latest(), 8)
    {
      ReplayLatest(accepted);
      pm100Std
    }

    /** Holds bytes 12-13 of the latest frame, not bytes 10-11. */
    function GetPM10Atm(): (r: u16)
      reads this
      requires Valid()
      ensures accepted == [] ==> r == 0
      ensures accepted != [] ==> r == BigEndian(Latest(), 12)
    {
      ReplayLatest(accepted);
      pm10Atm
    }

    /** No frame ever writes this field, so it stays at its initial zero. */
    function GetPM25Atm(): (r: u16)
      reads this
      requires Valid()
      ensures r == 0
    {
      ReplayLatest(accepted);
      pm25Atm
    }

    function GetCnsAtm(): (r: u16)
      reads this
      requires Valid()
      ensures accepted == [] ==> r == 0
      ensures accepted != [] ==> r == BigEndian(Latest(), 14)
    {
      ReplayLatest(accepted);
      cnsAtm
    }

    function GetPart03(): (r: u16)
      reads this
      requires Valid()
      ensures accepted == [] ==> r == 0
      ensures accepted != [] ==> r == BigEndian(Latest(), 16)
    {
      ReplayLatest(accepted);
      part03
    }

    function GetPart05(): (r: u16)
      reads this
      requires Valid()
      ensures accepted == [] ==> r == 0
      ensures accepted != [] ==> r == BigEndian(Latest(), 18)
    {
      ReplayLatest(accepted);
      part05
    }

    function GetPart10(): (r: u16)
      reads this
      requires Valid()
      ensures accepted == [] ==> r == 0
      ensures accepted != [] ==> r == BigEndian(Latest(), 20)
    {
      ReplayLatest(accepted);
      part10
    }

    function GetPart25(): (r: u16)
      reads this
      requires Valid()
      ensures accepted == [] ==> r == 0
      ensures accepted != [] ==> r == BigEndian(Latest(), 22)
    {
      ReplayLatest(accepted);
      part25
    }

    function GetPart50(): (r: u16)
      reads this
      requires Valid()
      ensures accepted == [] ==> r == 0
      ensures accepted != [] ==> r == BigEndian(Latest(), 24)
    {
      ReplayLatest(accepted);
      part50
    }

    function GetPart100(): (r: u16)
      reads this
      requires Valid()
      ensures accepted == [] ==> r == 0
      ensures accepted != [] ==> r == BigEndian(Latest(), 26)
    {
      ReplayLatest(accepted);
      part100
    }
  }

}
