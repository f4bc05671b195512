/**
 * The firmware's BLE connection flag, device-name write and polling tick.
 *
 * On the ESP32 `unsigned long` and `long` are 32 bits wide: `millis()` and
 * `previousMillis` are values modulo 2^32, and the interval test subtracts
 * them with wrap-around.  Sensor reads are inputs of a tick: a temperature or
 * humidity that reads as NaN is `None`, the result of re-initialising the
 * pulse sensor is a `bool`, and its infrared count is a 32-bit `long`.
 */
module Firmware {
  import opened Wrappers
  import Decimal

  const TwoTo32: int := 0x1_0000_0000

  /** An `unsigned long` value. */
  type U32 = x: int | 0 <= x < TwoTo32

  /** A `long` value. */
  type Long = x: int | -0x8000_0000 <= x < 0x8000_0000

  /** Sampling period of the loop, in milliseconds. */
  const Interval: U32 := 10000

  /** An infrared count must exceed this for a heart-rate notification. */
  const IrThreshold: int := 50000

  /** What one tick pushes to the connected peer. */
  datatype Notification =
    | EnvNotify(tempC: real, humidity: real)  // environment characteristic
    | HrNotify(payload: string)               // heart-rate characteristic

  /** `a - b` on `unsigned long`: the difference modulo 2^32. */
  function ElapsedSince(now: U32, prev: U32): (d: U32)
    ensures prev <= now ==> d == now - prev
    ensures now < prev ==> d == now + TwoTo32 - prev
  {
    (now - prev) % TwoTo32
  }

  /** The timer test of `loop()`. */
  predicate Fires(now: U32, prev: U32)
    ensures prev <= now ==> (Fires(now, prev) <==> now - prev >= Interval)
    ensures now < prev ==> (Fires(now, prev) <==> now + TwoTo32 - prev >= Interval)
  {
    ElapsedSince(now, prev) >= Interval
  }

  /** The heart-rate payload: the decimal text of the infrared count. */
  function HrPayload(ir: Long): string {
    Decimal.ToDecimal(ir)
  }

  /** Notifications emitted by a tick, given whether its timer fired. */
  function TickOutput(fires: bool, connected: bool, tempC: Option<real>, humidity: Option<real>,
                      sensorBegins: bool, ir: Long): (out: seq<Notification>)
    ensures |out| <= 2
    ensures !fires || !connected ==> out == []
    ensures forall i :: 0 <= i < |out| && out[i].EnvNotify? ==>
      tempC.Some? && humidity.Some? && out[i] == EnvNotify(tempC.value, humidity.value)
    ensures forall i :: 0 <= i < |out| && out[i].HrNotify? ==>
      sensorBegins && ir > IrThreshold && out[i].payload == HrPayload(ir)
  {
    if !fires then []
    else
      (if tempC.Some? && humidity.Some? && connected then [EnvNotify(tempC.value, humidity.value)] else [])
      + (if connected && sensorBegins && ir > IrThreshold then [HrNotify(HrPayload(ir))] else [])
  }

  predicate HasEnv(out: seq<Notification>) { exists i :: 0 <= i < |out| && out[i].EnvNotify? }
  predicate HasHr(out: seq<Notification>) { exists i :: 0 <= i < |out| && out[i].HrNotify? }

  /** What `String(value.c_str())` keeps of a byte string: everything before the first NUL. */
  function UpToNul(s: string): (r: string)
    ensures |r| <= |s| && r == s[..|r|]
    ensures forall i :: 0 <= i < |r| ==> r[i] != '\0'
    ensures |r| < |s| ==> s[|r|] == '\0'
  {
    if s == [] || s[0] == '\0' then [] else [s[0]] + UpToNul(s[1..])
  }

  /** A value without a NUL is stored exactly. */
  lemma {:induction false} UpToNulNoNul(s: string)
    requires forall i :: 0 <= i < |s| ==> s[i] != '\0'
    ensures UpToNul(s) == s
  {
    if s != [] {
      UpToNulNoNul(s[1..]);
    }
  }

  /** A non-empty write that starts with NUL passes the emptiness test and still empties the name. */
  lemma LeadingNulEmptiesName(s: string)
    requires |s| > 0 && s[0] == '\0'
    ensures UpToNul(s) == []
  {
  }

  /** The firmware's global state. */
  class Device {
    var previousMillis: U32
    var deviceConnected: bool
    var deviceName: string

    /** Power-on state; the initial device name is whatever the build provides. */
    constructor (initialName: string)
      ensures previousMillis == 0 && !deviceConnected && deviceName == initialName
    {
      previousMillis := 0;
      deviceConnected := false;
      deviceName := initialName;
    }

    /** A central connected. */
    method OnConnect()
      modifies this
      ensures deviceConnected
      ensures previousMillis == old(previousMillis) && deviceName == old(deviceName)
    {
      deviceConnected := true;
    }

    /** The central disconnected. */
    method OnDisconnect()
      modifies this
      ensures !deviceConnected
      ensures previousMillis == old(previousMillis) && deviceName == old(deviceName)
    {
      deviceConnected := false;
    }

    /** A write to the device-name characteristic: an empty value is ignored,
        otherwise the name becomes the value read as a C string. */
    method OnNameWrite(value: string)
      modifies this
      ensures deviceName == if |value| > 0 then UpToNul(value) else old(deviceName)
      ensures previousMillis == old(previousMillis) && deviceConnected == old(deviceConnected)
    {
      if |value| > 0 {
        deviceName := UpToNul(value);
      }
    }

    /** One pass of `loop()` at clock reading `currentMillis`; returns what was notified, in order. */
    method Loop(currentMillis: U32, tempC: Option<real>, humidity: Option<real>,
                sensorBegins: bool, irValue: Long) returns (sent: seq<Notification>)
      modifies this
      ensures previousMillis == if Fires(currentMillis, old(previousMillis)) then currentMillis else old(previousMillis)
      ensures deviceConnected == old(deviceConnected) && deviceName == old(deviceName)
      ensures sent == TickOutput(Fires(currentMillis, old(previousMillis)), deviceConnected,
                                 tempC, humidity, sensorBegins, irValue)
      ensures !Fires(currentMillis, old(previousMillis)) || !deviceConnected ==> sent == []
    {
      sent := [];
      if (currentMillis - previousMillis) % TwoTo32 >= Interval {
        previousMillis := currentMillis;
        if tempC.Some? && humidity.Some? {
          if deviceConnected {
            sent := sent + [EnvNotify(tempC.value, humidity.value)];
          }
        }
        if deviceConnected && sensorBegins {
          if irValue > IrThreshold {
            var hrPayload := HrPayload(irValue);
            sent := sent + [HrNotify(hrPayload)];
          }
        }
      }
    }
  }

  /** With a free-running clock `t` whose readings are `t mod 2^32`, the unsigned
      difference is the true elapsed time, however often the counter wrapped,
      as long as less than 2^32 ms (about 49.7 days) passed. */
  lemma ElapsedAcrossWrap(t0: int, t: int)
    requires 0 <= t0 <= t < t0 + TwoTo32
    ensures ElapsedSince(t % TwoTo32, t0 % TwoTo32) == t - t0
  {
    var q0, q := t0 / TwoTo32, t / TwoTo32;
    assert t0 == q0 * TwoTo32 + t0 % TwoTo32;
    assert t == q * TwoTo32 + t % TwoTo32;
    if t % TwoTo32 >= t0 % TwoTo32 {
      assert q == q0;
    } else {
      assert q == q0 + 1;
    }
  }

  /** Hence the timer fires exactly when at least `Interval` ms really passed. */
  lemma FiresIffIntervalPassed(t0: int, t: int)
    requires 0 <= t0 <= t < t0 + TwoTo32
    ensures Fires(t % TwoTo32, t0 % TwoTo32) <==> t - t0 >= Interval
  {
    ElapsedAcrossWrap(t0, t);
  }

  /** A tick that does not fire emits nothing. */
  lemma SilentWhenNotFired(connected: bool, tempC: Option<real>, humidity: Option<real>,
                           sensorBegins: bool, ir: Long)
    ensures TickOutput(false, connected, tempC, humidity, sensorBegins, ir) == []
  {
  }

  /** While disconnected no notification of either kind is emitted. */
  lemma SilentWhenDisconnected(fires: bool, tempC: Option<real>, humidity: Option<real>,
                               sensorBegins: bool, ir: Long)
    ensures TickOutput(fires, false, tempC, humidity, sensorBegins, ir) == []
  {
  }

  /** The environment notification is sent iff the timer fired, both readings are
      numbers and a central is connected; it carries those readings and comes first. */
  lemma EnvSentIff(fires: bool, connected: bool, tempC: Option<real>, humidity: Option<real>,
                   sensorBegins: bool, ir: Long)
    ensures var out := TickOutput(fires, connected, tempC, humidity, sensorBegins, ir);
      HasEnv(out) <==> (fires && tempC.Some? && humidity.Some? && connected)
    ensures var out := TickOutput(fires, connected, tempC, humidity, sensorBegins, ir);
      HasEnv(out) ==> out[0] == EnvNotify(tempC.value, humidity.value)
  {
    var out := TickOutput(fires, connected, tempC, humidity, sensorBegins, ir);
    if fires && tempC.Some? && humidity.Some? && connected {
      assert out[0].EnvNotify?;
    }
    if HasEnv(out) {
      var i :| 0 <= i < |out| && out[i].EnvNotify?;
    }
  }

  /** The heart-rate notification is sent iff the timer fired, a central is connected,
      the sensor started and the count is strictly above the threshold; it is last. */
  lemma HrSentIff(fires: bool, connected: bool, tempC: Option<real>, humidity: Option<real>,
                  sensorBegins: bool, ir: Long)
    ensures var out := TickOutput(fires, connected, tempC, humidity, sensorBegins, ir);
      HasHr(out) <==> (fires && connected && sensorBegins && ir > IrThreshold)
    ensures var out := TickOutput(fires, connected, tempC, humidity, sensorBegins, ir);
      HasHr(out) ==> out[|out| - 1] == HrNotify(HrPayload(ir))
  {
    var out := TickOutput(fires, connected, tempC, humidity, sensorBegins, ir);
    if fires && connected && sensorBegins && ir > IrThreshold {
      assert out[|out| - 1].HrNotify?;
    }
    if HasHr(out) {
      var i :| 0 <= i < |out| && out[i].HrNotify?;
    }
  }

  /** A count of exactly the threshold sends no heart-rate notification. */
  lemma ThresholdSendsNothing(fires: bool, connected: bool, tempC: Option<real>, humidity: Option<real>,
                              sensorBegins: bool)
    ensures !HasHr(TickOutput(fires, connected, tempC, humidity, sensorBegins, IrThreshold))
  {
    HrSentIff(fires, connected, tempC, humidity, sensorBegins, IrThreshold);
  }

  /** Every heart-rate payload that is sent is the unsigned digit string of the count,
      and parsing it back gives the count. */
  lemma HrPayloadRoundTrip(ir: Long)
    requires ir > IrThreshold
    ensures Decimal.IsCanonical(HrPayload(ir))
    ensures Decimal.Parse(HrPayload(ir)) == Some(ir as int)
    ensures Decimal.ParseDigits(HrPayload(ir)) == ir
  {
    Decimal.PositiveIsCanonical(ir);
    Decimal.ParseToDecimal(ir);
    Decimal.ParseDigitsOfDigits(ir);
  }
}
