/** vSensorTask: a synthetic temperature that walks up and down between the bounds,
    one unit per cycle. */
module Sensor {

  /** The reading at which the walk turns downwards. */
  const Ceiling: int := 127
  /** The reading at which the walk turns upwards. */
  const Floor: int := 16

  /** The task's state: temp and the direction flag (the source's cont, 1 = rising). */
  datatype Wave = Wave(temp: int, rising: bool)

  /** temp = 1, cont = 0. */
  const Start: Wave := Wave(1, false)

  /** One loop iteration: move one unit in the current direction, then turn at the bounds. */
  function Next(w: Wave): (r: Wave)
    ensures r.temp == w.temp + 1 || r.temp == w.temp - 1
  {
    if w.rising then
      var t := w.temp + 1;
      Wave(t, t < Ceiling)
    else
      var t := w.temp - 1;
      Wave(t, t <= Floor)
  }

  /** The state after k iterations; After(k).temp is the k-th sample sent. */
  function After(k: nat): (w: Wave)
    ensures 1 - k <= w.temp <= 1 + k
  {
    if k == 0 then Start else Next(After(k - 1))
  }

  /** The k-th sample in closed form: 0 up to 127 over the first 128 samples, then a
      triangle of period 222 between 127 and 16. */
  function Triangle(k: nat): int
  {
    if k == 0 then 1
    else if k <= 128 then k - 1
    else
      var j := (k - 128) % 222;
      if j <= 111 then 127 - j else j - 95
  }

  /** The direction after the k-th sample in closed form. */
  predicate Rising(k: nat)
  {
    if k == 0 then false
    else if k < 128 then true
    else if k == 128 then false
    else (k - 128) % 222 >= 111
  }

  lemma ModSucc(x: nat)
    ensures (x + 1) % 222 == if x % 222 == 221 then 0 else x % 222 + 1
  {
  }

  /** One step of the state machine moves the closed form from cycle k to cycle k + 1. */
  lemma ClosedFormStep(k: nat)
    requires k >= 1
    ensures Next(Wave(Triangle(k), Rising(k))) == Wave(Triangle(k + 1), Rising(k + 1))
  {
    if k >= 129 {
      var j := (k - 128) % 222;
      ModSucc(k - 128);
      assert (k + 1 - 128) % 222 == if j == 221 then 0 else j + 1;
    } else if k == 128 {
      assert (k + 1 - 128) % 222 == 1;
    }
  }

  /** The iterated state machine and the closed form agree on every cycle. */
  lemma {:induction false} AfterClosedForm(k: nat)
    ensures After(k) == Wave(Triangle(k), Rising(k))
  {
    if k > 0 {
      AfterClosedForm(k - 1);
      if k > 1 {
        ClosedFormStep(k - 1);
      }
    }
  }

  /** Every sample lies in [0, 127]; from the 128th on, every sample lies in [16, 127]. */
  lemma SampleBounds(k: nat)
    requires k >= 1
    ensures 0 <= After(k).temp <= Ceiling
    ensures k >= 128 ==> Floor <= After(k).temp <= Ceiling
  {
    AfterClosedForm(k);
  }

  /** The walk turns only at the bounds: a change of direction happens on reaching 127
      (turning down) or 16 (turning up), apart from the very first step from 1 to 0. */
  lemma TurnsAtBounds(k: nat)
    requires After(k).rising != After(k + 1).rising
    ensures After(k + 1).rising ==> After(k + 1).temp == Floor || k == 0
    ensures !After(k + 1).rising ==> After(k + 1).temp == Ceiling
  {
    AfterClosedForm(k);
    AfterClosedForm(k + 1);
  }

  /** Each sample differs from the one before by exactly one. */
  lemma {:induction false} ConsecutiveSamples(k: nat)
    requires k >= 1
    ensures Triangle(k + 1) - Triangle(k) == 1 || Triangle(k) - Triangle(k + 1) == 1
  {
    AfterClosedForm(k);
    AfterClosedForm(k + 1);
  }

  /** The task as an object: its two locals and a count of the samples it has sent. */
  class SensorTask {
    var temp: int
    var rising: bool  // the source's cont
    ghost var emitted: nat

    ghost predicate Valid()
      reads this
    {
      Wave(temp, rising) == After(emitted)
    }

    constructor ()
      ensures Valid() && emitted == 0 && temp == 1 && !rising
    {
      temp := 1;
      rising := false;
      emitted := 0;
    }

    /** One iteration of the task's loop; returns the sample it sends on the queue. */
    method Step() returns (sample: int)
      requires Valid()
      modifies this
      ensures Valid() && emitted == old(emitted) + 1
      ensures sample == temp == Triangle(emitted)
      ensures sample == old(temp) + 1 || sample == old(temp) - 1
      ensures 0 <= sample <= Ceiling
      ensures emitted >= 128 ==> Floor <= sample
    {
      if rising {
        temp := temp + 1;
        if temp >= Ceiling {
          rising := false;
        }
      } else {
        temp := temp - 1;
        if temp <= Floor {
          rising := true;
        }
      }
      emitted := emitted + 1;
      sample := temp;
      AfterClosedForm(emitted);
      SampleBounds(emitted);
    }
  }
}
