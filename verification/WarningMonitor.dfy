/** sys_warn as the firmware keeps it: four sample arrays updated in place and the functions that judge them. */
module WarningMonitor {
  import opened Machine
  import opened Warnings

  class Monitor {
    var motorLowSpeedAlarm: bool
    var ldNotWorkAlarm: bool
    var windowDustAlarm: bool
    var tempOutAlarm: bool
    var len: nat
    const motorCycleCnt: array<Word>
    const zeroValue: array<Word>
    const dustCnt: array<Word>
    const tempValue: array<Word>
    var motorEnable: Word
    var dustThreshold: Word

    ghost predicate Valid()
      reads this
    {
      && motorCycleCnt.Length == WINDOW && zeroValue.Length == WINDOW
      && dustCnt.Length == WINDOW && tempValue.Length == WINDOW
      && motorCycleCnt != zeroValue && motorCycleCnt != dustCnt && motorCycleCnt != tempValue
      && zeroValue != dustCnt && zeroValue != tempValue && dustCnt != tempValue
    }

    ghost function Arrays(): set<object> { {motorCycleCnt, zeroValue, dustCnt, tempValue} }

    ghost function Value(): Warn
      reads this, Arrays()
      requires Valid()
    {
      Warn(Channel(motorLowSpeedAlarm, motorCycleCnt[..]), Channel(ldNotWorkAlarm, zeroValue[..]),
           Channel(windowDustAlarm, dustCnt[..]), Channel(tempOutAlarm, tempValue[..]),
           len, motorEnable, dustThreshold)
    }

    constructor (enable: Word, threshold: Word)
      ensures Valid() && fresh(Arrays()) && Initial(Value())
      ensures motorEnable == enable && dustThreshold == threshold
    {
      motorLowSpeedAlarm, ldNotWorkAlarm, windowDustAlarm, tempOutAlarm := false, false, false, false;
      len := 0;
      motorCycleCnt := new Word[WINDOW](_ => 0);
      zeroValue := new Word[WINDOW](_ => 0);
      dustCnt := new Word[WINDOW](_ => 0);
      tempValue := new Word[WINDOW](_ => 0);
      motorEnable, dustThreshold := enable, threshold;
    }

    /** process_motor_waring */
    method ProcessMotor()
      requires Valid()
      modifies this`motorLowSpeedAlarm
      ensures motorLowSpeedAlarm == Verdict(old(Value()), Motor, motorCycleCnt[..])
    {
      if motorEnable == ENABLE {
        motorLowSpeedAlarm := motorCycleCnt[0] >= MOTOR_LOW_SPEED && motorCycleCnt[1] >= MOTOR_LOW_SPEED
          && motorCycleCnt[2] >= MOTOR_LOW_SPEED && motorCycleCnt[3] >= MOTOR_LOW_SPEED
          && motorCycleCnt[4] >= MOTOR_LOW_SPEED;
      } else {
        motorLowSpeedAlarm := false;
      }
    }

    /** process_ld_waring */
    method ProcessLd()
      requires Valid()
      modifies this`ldNotWorkAlarm
      ensures ldNotWorkAlarm == Verdict(old(Value()), Laser, zeroValue[..])
    {
      ldNotWorkAlarm := zeroValue[0] < LD_NO_WORK && zeroValue[1] < LD_NO_WORK && zeroValue[2] < LD_NO_WORK
        && zeroValue[3] < LD_NO_WORK && zeroValue[4] < LD_NO_WORK;
    }

    /** process_window_dust_waring */
    method ProcessDust()
      requires Valid()
      modifies this`windowDustAlarm
      ensures windowDustAlarm == Verdict(old(Value()), Dust, dustCnt[..])
    {
      windowDustAlarm := dustCnt[0] > dustThreshold && dustCnt[1] > dustThreshold && dustCnt[2] > dustThreshold
        && dustCnt[3] > dustThreshold && dustCnt[4] > dustThreshold;
    }

    /** process_sys_temp_waring: every round of the loop overwrites the flag. */
    method ProcessTemperature()
      requires Valid()
      modifies this`tempOutAlarm
      ensures tempOutAlarm == Verdict(old(Value()), Temperature, tempValue[..])
    {
      for i := 0 to WINDOW
        invariant i > 0 ==> tempOutAlarm == TooHotOrCold(tempValue[i - 1])
      {
        var signBit := (tempValue[i] / 0x2000) % 2;
        if signBit == 0 {
          if tempValue[i] % 0x100 > TEMP_OUT {
            tempOutAlarm := true;
          } else {
            tempOutAlarm := false;
          }
        } else {
          if tempValue[i] % 0x100 > COLD_LIMIT {
            tempOutAlarm := true;
          } else {
            tempOutAlarm := false;
          }
        }
      }
    }

    /** The status branch of fpga2nios_parse, from the words it pops. */
    method OnStatus(s: Status)
      requires Valid()
      modifies this, Arrays()
      ensures Valid() && Value() == Step(old(Value()), Frame(s))
    {
      hide Verdict;
      StoreSamples(s);
      if s.checksum == GOOD_TRAILER && len == WINDOW {
        JudgeAll();
      }
    }

    method StoreSamples(s: Status)
      requires Valid()
      modifies this`len, Arrays()
      ensures Valid() && Value() == Stored(old(Value()), s)
    {
      len := len % WINDOW;
      if !motorLowSpeedAlarm {
        motorCycleCnt[len] := s.motor;
      }
      if !windowDustAlarm {
        dustCnt[len] := s.dust;
      }
      if !tempOutAlarm {
        tempValue[len] := s.temp % 0x1_0000;
      }
      if !ldNotWorkAlarm {
        zeroValue[len] := s.pulse;
      }
      len := len + 1;
    }

    method JudgeAll()
      requires Valid()
      modifies this`motorLowSpeedAlarm, this`ldNotWorkAlarm, this`windowDustAlarm, this`tempOutAlarm
      ensures Valid() && Value() == Judged(old(Value()))
    {
      hide Verdict;
      ghost var w0 := Value();
      ProcessMotor();
      ghost var w1 := Value();
      ProcessLd();
      ghost var w2 := Value();
      ProcessDust();
      ghost var w3 := Value();
      ProcessTemperature();
      SameVerdict(w0, w1, Laser, zeroValue[..]);
      SameVerdict(w0, w2, Dust, dustCnt[..]);
      SameVerdict(w0, w3, Temperature, tempValue[..]);
    }

    method OnMotorEnable(v: Word)
      requires Valid()
      modifies this`motorEnable
      ensures Valid() && Value() == Step(old(Value()), SetMotorEnable(v))
    {
      motorEnable := v;
    }

    method OnDustThreshold(v: Word)
      requires Valid()
      modifies this`dustThreshold
      ensures Valid() && Value() == Step(old(Value()), SetDustThreshold(v))
    {
      dustThreshold := v;
    }
  }
}
