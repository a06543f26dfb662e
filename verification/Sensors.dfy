/** Sensor states derived from switch inputs and the binding table of repeat_comm.cpp. */
module Sensors {
  import opened Bytes

  const RECORD_SIZE := 300
  const BINDINGS := 7
  const BINDING_BYTES := 18
  const INPUTS := 36
  const AIR_BINDINGS := 53
  const AIR_BYTES := 4
  const CURTAIN_BINDINGS := 49

  datatype SenType = HumanGroup | LeakWater | LeakGas | NoSensor

  function GetSenType(code: byte): SenType {
    if code == 0 then NoSensor
    else if code <= 8 then HumanGroup
    else if code <= 12 then LeakWater
    else if code == 13 then LeakGas
    else NoSensor
  }

  function GetBit(b: byte, n: nat): (v: byte)
    requires n < 4
    ensures v < 2
  {
    match n
    case 0 => b % 2
    case 1 => b / 2 % 2
    case 2 => b / 4 % 2
    case _ => b / 8 % 2
  }

  /** `GET_BITS(b, 0, 3)` and `GET_BITS(b, 4, 7)`. */
  function Nibble(b: byte, high: bool): (v: byte)
    ensures v < 16
  {
    if high then b / 16 else b % 16
  }

  /** An open input is an active sensor. */
  function TranSenActive(status: byte): bool {
    status == 0
  }

  predicate IsRecord(r: seq<byte>) {
    |r| == RECORD_SIZE
  }

  /** The sensor that input `j` is bound to: the table holds two to a byte. */
  function SensorOf(table: seq<byte>, j: nat): byte
    requires IsRecord(table) && j < INPUTS
  {
    Nibble(table[BINDINGS + j / 2], j % 2 == 1)
  }

  /** Input `j` is open: four to a switch byte. */
  predicate Open(switches: seq<byte>, j: nat)
    requires IsRecord(switches) && j < INPUTS
  {
    GetBit(switches[j / 4], j % 4) == 0
  }

  /** Some input bound to `code` among the first `n` is open. */
  ghost predicate Triggered(table: seq<byte>, switches: seq<byte>, code: byte, n: nat)
    requires IsRecord(table) && IsRecord(switches) && n <= INPUTS
  {
    exists j: nat :: j < n && SensorOf(table, j) == code && Open(switches, j)
  }

  ghost predicate Senses(table: seq<byte>, switches: seq<byte>, code: byte)
    requires IsRecord(table) && IsRecord(switches)
  {
    GetSenType(code) != NoSensor && Triggered(table, switches, code, INPUTS)
  }

  /** The sensor states after the first `n` inputs. */
  ghost predicate StatesAfter(status: seq<byte>, table: seq<byte>, switches: seq<byte>, n: nat)
    requires IsRecord(table) && IsRecord(switches) && n <= INPUTS && IsRecord(status)
  {
    forall k: nat | k < RECORD_SIZE ::
      status[k] == if k < 256 && GetSenType(k) != NoSensor && Triggered(table, switches, k, n) then 1 else 0
  }

  class RepeatComm {
    const hukong: array<byte>
    const switchStatus: array<byte>
    const senStatus: array<byte>

    ghost predicate Valid() {
      && hukong.Length == switchStatus.Length == senStatus.Length == RECORD_SIZE
      && hukong != senStatus && switchStatus != senStatus
    }

    constructor ()
      ensures Valid() && fresh(hukong) && fresh(switchStatus) && fresh(senStatus)
    {
      hukong, switchStatus, senStatus := new byte[RECORD_SIZE], new byte[RECORD_SIZE], new byte[RECORD_SIZE];
    }

    /** `ProcessSen`: all sensor states anew from the bindings and the inputs. */
    method ProcessSen()
      requires Valid()
      modifies senStatus
      ensures StatesAfter(senStatus[..], hukong[..], switchStatus[..], INPUTS)
    {
      for k := 0 to RECORD_SIZE
        invariant forall m | 0 <= m < k :: senStatus[m] == 0
      {
        senStatus[k] := 0;
      }
      for i := 0 to BINDING_BYTES
        invariant StatesAfter(senStatus[..], hukong[..], switchStatus[..], 2 * i)
      {
        var code := Nibble(hukong[BINDINGS + i], false);
        Process(2 * i, code, GetBit(switchStatus[i / 2], i % 2 * 2));
        code := Nibble(hukong[BINDINGS + i], true);
        Process(2 * i + 1, code, GetBit(switchStatus[i / 2], i % 2 * 2 + 1));
      }
    }

    /** One of the two halves of the loop body. */
    method Process(ghost j: nat, code: byte, status: byte)
      requires Valid() && j < INPUTS
      requires code == SensorOf(hukong[..], j) && (status == 0 <==> Open(switchStatus[..], j))
      requires StatesAfter(senStatus[..], hukong[..], switchStatus[..], j)
      modifies senStatus
      ensures StatesAfter(senStatus[..], hukong[..], switchStatus[..], j + 1)
    {
      hide SensorOf, Open, Triggered;
      forall k: byte ensures Triggered(hukong[..], switchStatus[..], k, j + 1)
        <==> Triggered(hukong[..], switchStatus[..], k, j) || (k == code && status == 0)
      {
        OneMoreInput(hukong[..], switchStatus[..], k, j);
      }
      if GetSenType(code) != NoSensor {
        senStatus[code] := if senStatus[code] != 0 || TranSenActive(status) then 1 else 0;
      }
    }

    /** `IsHasManByXinfeng`. */
    method IsHasManByXinfeng(addr: byte) returns (hasMan: bool)
      requires Valid()
      ensures hasMan <==> exists h: nat :: 1 <= h <= 8 && AirOf(hukong[..], h) == addr && senStatus[..][h] != 0
    {
      hasMan := false;
      ghost var table, status := hukong[..], senStatus[..];
      for i := 0 to AIR_BYTES
        invariant hasMan <==> exists h: nat :: 1 <= h <= 2 * i && AirOf(table, h) == addr && status[h] != 0
      {
        ghost var before := hasMan;
        assert AirOf(table, 2 * i + 1) == Nibble(table[AIR_BINDINGS + i], false);
        assert AirOf(table, 2 * i + 2) == Nibble(table[AIR_BINDINGS + i], true);
        var a := Nibble(hukong[AIR_BINDINGS + i], false);
        if a == addr {
          hasMan := hasMan || senStatus[i * 2 + 1] != 0;
        }
        a := Nibble(hukong[AIR_BINDINGS + i], true);
        if a == addr {
          hasMan := hasMan || senStatus[i * 2 + 2] != 0;
        }
        assert hasMan == (before
                          || (AirOf(table, 2 * i + 1) == addr && status[2 * i + 1] != 0)
                          || (AirOf(table, 2 * i + 2) == addr && status[2 * i + 2] != 0));
      }
    }

    /** `IsHasManByCurtain`. */
    method IsHasManByCurtain(addr: byte) returns (hasMan: bool)
      requires Valid()
      ensures hasMan <==> 1 <= addr <= 8 && senStatus[..][CurtainSensor(hukong[..], addr)] != 0
    {
      for i := 0 to 4
        invariant addr < 1 || addr > 2 * i
      {
        if i * 2 + 1 == addr {
          var id := Nibble(hukong[CURTAIN_BINDINGS + i], false);
          return senStatus[id] != 0;
        }
        if i * 2 + 2 == addr {
          var id := Nibble(hukong[CURTAIN_BINDINGS + i], true);
          return senStatus[id] != 0;
        }
      }
      hasMan := false;
    }
  }

  lemma OneMoreInput(table: seq<byte>, switches: seq<byte>, code: byte, j: nat)
    requires IsRecord(table) && IsRecord(switches) && j < INPUTS
    ensures Triggered(table, switches, code, j + 1)
       <==> Triggered(table, switches, code, j) || (SensorOf(table, j) == code && Open(switches, j))
  {
    hide SensorOf, Open;
  }

  /** The air conditioner that human sensor group `h` is bound to. */
  function AirOf(table: seq<byte>, h: nat): byte
    requires IsRecord(table) && 1 <= h <= 8
  {
    Nibble(table[AIR_BINDINGS + (h - 1) / 2], (h - 1) % 2 == 1)
  }

  /** The sensor that curtain `addr` is bound to. */
  function CurtainSensor(table: seq<byte>, addr: byte): byte
    requires IsRecord(table) && 1 <= addr <= 8
  {
    Nibble(table[CURTAIN_BINDINGS + (addr - 1) / 2], (addr - 1) % 2 == 1)
  }

  /** After `ProcessSen` a state is set if and only if some input bound to the sensor is open. */
  lemma StateIsSensed(status: seq<byte>, table: seq<byte>, switches: seq<byte>, code: byte)
    requires IsRecord(table) && IsRecord(switches) && IsRecord(status)
    requires StatesAfter(status, table, switches, INPUTS)
    ensures status[code] != 0 <==> Senses(table, switches, code)
  {
    hide GetSenType, Triggered;
  }

  /** An open input is bound to a human sensor group that is bound to the air conditioner. */
  ghost predicate Occupied(table: seq<byte>, switches: seq<byte>, addr: byte)
    requires IsRecord(table) && IsRecord(switches)
  {
    exists h: nat, j: nat ::
      1 <= h <= 8 && j < INPUTS && Leads(table, switches, addr, h, j)
  }

  predicate Leads(table: seq<byte>, switches: seq<byte>, addr: byte, h: nat, j: nat)
    requires IsRecord(table) && IsRecord(switches) && 1 <= h <= 8 && j < INPUTS
  {
    AirOf(table, h) == addr && SensorOf(table, j) == h && Open(switches, j)
  }

  /**
   `ProcessSen` followed by `IsHasManByXinfeng`: somebody is there for an air conditioner if and
   only if the two binding tables lead from an open input to it.
   */
  lemma OccupiedExactly(status: seq<byte>, table: seq<byte>, switches: seq<byte>, addr: byte)
    requires IsRecord(table) && IsRecord(switches) && IsRecord(status)
    requires StatesAfter(status, table, switches, INPUTS)
    ensures (exists h: nat :: 1 <= h <= 8 && AirOf(table, h) == addr && status[h] != 0)
       <==> Occupied(table, switches, addr)
  {
    hide AirOf, SensorOf, Open, StatesAfter;
    forall h: nat | 1 <= h <= 8 ensures status[h] != 0 <==> Triggered(table, switches, h, INPUTS) {
      StateIsSensed(status, table, switches, h);
    }
    if h: nat :| 1 <= h <= 8 && AirOf(table, h) == addr && status[h] != 0 {
      var j: nat :| j < INPUTS && SensorOf(table, j) == h && Open(switches, j);
      assert Leads(table, switches, addr, h, j);
    }
    if h: nat, j: nat :| 1 <= h <= 8 && j < INPUTS && Leads(table, switches, addr, h, j) {
      assert Triggered(table, switches, h, INPUTS);
    }
  }

  /** One input can change the state of no other sensor than its own. */
  lemma InputsAreIndependent(table: seq<byte>, switches: seq<byte>, switches': seq<byte>, j: nat, code: byte)
    requires IsRecord(table) && IsRecord(switches) && IsRecord(switches') && j < INPUTS
    requires forall i: nat | i < INPUTS && i != j :: Open(switches, i) <==> Open(switches', i)
    requires SensorOf(table, j) != code
    ensures Senses(table, switches, code) <==> Senses(table, switches', code)
  {
    hide SensorOf, Open, GetSenType;
    if i: nat :| i < INPUTS && SensorOf(table, i) == code && Open(switches, i) {
      assert Open(switches', i);
    }
    if i: nat :| i < INPUTS && SensorOf(table, i) == code && Open(switches', i) {
      assert Open(switches, i);
    }
  }

  /** An input that opens sets its own sensor, if it has one, and changes no other. */
  lemma OpeningSetsItsSensor(table: seq<byte>, before: seq<byte>, after: seq<byte>, j: nat, code: byte)
    requires IsRecord(table) && IsRecord(before) && IsRecord(after) && j < INPUTS
    requires forall i: nat | i < INPUTS && i != j :: Open(before, i) <==> Open(after, i)
    requires !Open(before, j) && Open(after, j)
    ensures Senses(table, after, code)
       <==> Senses(table, before, code) || (code == SensorOf(table, j) && GetSenType(code) != NoSensor)
  {
    hide SensorOf, Open, GetSenType;
    if code == SensorOf(table, j) {
      assert Triggered(table, after, code, INPUTS);
    } else {
      InputsAreIndependent(table, before, after, j, code);
    }
  }

  // ----- what the two tables hold, byte by byte -----

  /**
   The eighteen bytes from 7 on name two sensors each, the one of the lower four bits first, and
   their inputs are the four lowest bits of the switch bytes in the same order.
   */
  predicate EntryOpen(table: seq<byte>, switches: seq<byte>, code: byte, i: nat)
    requires |table| == |switches| == 300 && i < 18
  {
    || (table[7 + i] % 16 == code && switches[i / 2] / (if i % 2 == 0 then 1 else 4) % 2 == 0)
    || (table[7 + i] / 16 == code && switches[i / 2] / (if i % 2 == 0 then 2 else 8) % 2 == 0)
  }

  predicate InputTells(table: seq<byte>, switches: seq<byte>, code: byte, j: nat)
    requires IsRecord(table) && IsRecord(switches) && j < INPUTS
  {
    SensorOf(table, j) == code && Open(switches, j)
  }

  lemma EntryIsTwoInputs(table: seq<byte>, switches: seq<byte>, code: byte, i: nat)
    requires IsRecord(table) && IsRecord(switches) && i < 18
    ensures EntryOpen(table, switches, code, i)
       <==> InputTells(table, switches, code, 2 * i) || InputTells(table, switches, code, 2 * i + 1)
  {
  }

  /**
   After `ProcessSen` a state is set if and only if its number is one of the thirteen sensors and
   one of the two halves of some table byte carries it while the input of that half is 0.
   */
  lemma SensedFromBytes(status: seq<byte>, table: seq<byte>, switches: seq<byte>, code: byte)
    requires |table| == |switches| == |status| == 300
    requires StatesAfter(status, table, switches, INPUTS)
    ensures status[code] != 0
       <==> 1 <= code <= 13 && exists i: nat :: i < 18 && EntryOpen(table, switches, code, i)
  {
    hide SensorOf, Open, EntryOpen, StatesAfter, Triggered;
    StateIsSensed(status, table, switches, code);
    TriggeredFromBytes(table, switches, code);
  }

  lemma TriggeredFromBytes(table: seq<byte>, switches: seq<byte>, code: byte)
    requires IsRecord(table) && IsRecord(switches)
    ensures Triggered(table, switches, code, INPUTS)
       <==> exists i: nat :: i < 18 && EntryOpen(table, switches, code, i)
  {
    hide SensorOf, Open, EntryOpen;
    if j: nat :| j < INPUTS && SensorOf(table, j) == code && Open(switches, j) {
      EntryIsTwoInputs(table, switches, code, j / 2);
      assert j == 2 * (j / 2) || j == 2 * (j / 2) + 1;
      assert EntryOpen(table, switches, code, j / 2);
    }
    if i: nat :| i < 18 && EntryOpen(table, switches, code, i) {
      EntryIsTwoInputs(table, switches, code, i);
    }
  }

  /** The kinds of the thirteen sensors: eight human groups, four for water, one for gas. */
  lemma KindsExactly(code: byte)
    ensures GetSenType(code) == HumanGroup <==> code in {1, 2, 3, 4, 5, 6, 7, 8}
    ensures GetSenType(code) == LeakWater <==> code in {9, 10, 11, 12}
    ensures GetSenType(code) == LeakGas <==> code == 13
  {
  }

  /**
   Somebody is there for an air conditioner if and only if one of the halves of the four bytes from
   53 on names it and the human group counted by that half has an open input in the other table.
   */
  lemma OccupiedFromBytes(status: seq<byte>, table: seq<byte>, switches: seq<byte>, addr: byte)
    requires |table| == |switches| == |status| == 300
    requires StatesAfter(status, table, switches, INPUTS)
    ensures (exists h: nat :: 1 <= h <= 8 && AirOf(table, h) == addr && status[h] != 0)
       <==> exists h: byte, i: nat :: 1 <= h <= 8 && i < 18 && AirHalf(table, h) == addr
                                   && EntryOpen(table, switches, h, i)
  {
    hide AirOf, AirHalf, EntryOpen, StatesAfter;
    forall h: byte | 1 <= h <= 8
      ensures status[h] != 0 <==> exists i: nat :: i < 18 && EntryOpen(table, switches, h, i)
      ensures AirOf(table, h) == AirHalf(table, h)
    {
      SensedFromBytes(status, table, switches, h);
      AirOfHalf(table, h);
    }
  }

  function AirHalf(table: seq<byte>, h: byte): byte
    requires |table| == 300 && 1 <= h <= 8
  {
    if h == 1 then table[53] % 16 else if h == 2 then table[53] / 16
    else if h == 3 then table[54] % 16 else if h == 4 then table[54] / 16
    else if h == 5 then table[55] % 16 else if h == 6 then table[55] / 16
    else if h == 7 then table[56] % 16 else table[56] / 16
  }

  lemma AirOfHalf(table: seq<byte>, h: byte)
    requires |table| == 300 && 1 <= h <= 8
    ensures AirOf(table, h) == AirHalf(table, h)
  {
  }

  /** Curtains 1 to 8 take their sensors from the halves of the four bytes from 49 on. */
  lemma CurtainFromBytes(table: seq<byte>, i: nat)
    requires |table| == 300 && i < 4
    ensures CurtainSensor(table, 2 * i + 1) == table[49 + i] % 16
    ensures CurtainSensor(table, 2 * i + 2) == table[49 + i] / 16
  {
  }
}
