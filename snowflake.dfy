// The stateful part of the snowflake generator: the clock it reads, the
// busy wait for the next millisecond, the generator object with its two
// mutable variables, and the factory that validates the ids and builds it.

module SnowFlake {
  import opened Bits
  import opened Decimal
  import opened SnowFlakeSpec

  /** The wall clock as the generator sees it: the trace of millisecond
      readings that successive calls of `TimeGen` return. Nothing constrains
      the readings, so the clock may stand still or move backwards. */
  class Clock {
    const readings: seq<nat>
    /** How many readings have been taken so far. */
    var tick: nat

    constructor (readings: seq<nat>)
      ensures this.readings == readings && tick == 0
    {
      this.readings := readings;
      tick := 0;
    }

    /** Reads the clock once. */
    method TimeGen() returns (t: nat)
      requires tick < |readings|
      modifies this
      ensures tick == old(tick) + 1 && t == readings[old(tick)]
    {
      t := readings[tick];
      tick := tick + 1;
    }

    /** Reading `to - 1` is the first reading from `from` on that is past
        `timestamp`. */
    predicate FirstPast(from: nat, to: nat, timestamp: int)
    {
      from < to <= |readings| && readings[to - 1] > timestamp
      && forall j :: from <= j < to - 1 ==> readings[j] <= timestamp
    }

    /** The readings taken since `from` end with the first one past
        `timestamp`, and that reading is `result`. */
    ghost predicate WaitedPast(from: nat, timestamp: int, result: int)
      reads this
    {
      FirstPast(from, tick, timestamp) && result == readings[tick - 1]
    }

    /** Some reading still to come is past `timestamp`. */
    ghost predicate Exceeds(timestamp: int)
      reads this
    {
      exists k :: tick <= k < |readings| && readings[k] > timestamp
    }
  }

  /** Busy-waits until the clock reads past `lastTimestamp` and returns that
      reading: the first one past it. The ghost `bound` is a reading known to
      be past `lastTimestamp`, which is what makes the wait finite. */
  method TilNextMillis(clock: Clock, lastTimestamp: int, ghost bound: nat) returns (timestamp: nat)
    requires clock.tick <= bound < |clock.readings| && clock.readings[bound] > lastTimestamp
    modifies clock
    ensures clock.WaitedPast(old(clock.tick), lastTimestamp, timestamp)
  {
    timestamp := clock.TimeGen();
    while timestamp <= lastTimestamp
      invariant old(clock.tick) < clock.tick <= |clock.readings|
      invariant timestamp == clock.readings[clock.tick - 1]
      invariant forall j :: old(clock.tick) <= j < clock.tick - 1 ==> clock.readings[j] <= lastTimestamp
      invariant timestamp <= lastTimestamp ==> clock.tick <= bound
      decreases |clock.readings| - clock.tick
    {
      timestamp := clock.TimeGen();
    }
  }

  predicate StrictlyIncreasing(ids: seq<nat>)
  {
    forall i, j :: 0 <= i < j < |ids| ==> ids[i] < ids[j]
  }

  /** Appending a value above the last one keeps a sequence strictly increasing. */
  lemma AppendIncreasing(ids: seq<nat>, x: nat)
    requires StrictlyIncreasing(ids) && (ids != [] ==> ids[|ids| - 1] < x)
    ensures StrictlyIncreasing(ids + [x])
  {
  }

  /** A generator for one (worker, datacenter) pair. */
  class Generator {
    const workerId: nat
    const datacenterId: nat
    var lastTimestamp: int
    var sequence: nat
    /** Every identifier this generator has returned, oldest first. */
    ghost var Issued: seq<nat>

    ghost function State(): GenState
      reads this
    {
      GenState(lastTimestamp, sequence)
    }

    ghost predicate Valid()
      reads this
    {
      ValidWorkerId(workerId) && ValidDatacenterId(datacenterId) && ValidState(State())
      && (Issued == [] <==> lastTimestamp == -1)
      && (Issued != [] ==> lastTimestamp >= 0 && Issued[|Issued| - 1] == IdOf(workerId, datacenterId, State()))
      && StrictlyIncreasing(Issued)
    }

    constructor (workerId: int, datacenterId: int)
      requires Validate(workerId, datacenterId).Ok?
      ensures Valid()
      ensures this.workerId == workerId && this.datacenterId == datacenterId
      ensures State() == Initial && Issued == []
    {
      this.workerId := workerId;
      this.datacenterId := datacenterId;
      lastTimestamp := -1;
      sequence := 0;
      Issued := [];
    }

    /** The bookkeeping half of `NextId`, once the clock reading `now` is
        known not to be behind: moves (lastTimestamp, sequence) on, waiting
        for the next millisecond when the sequence runs out within this one.
        Returns the timestamp the identifier carries. The ghost `bound` is a
        reading known to be past `lastTimestamp` when the wait happens. */
    method Advance(clock: Clock, now: nat, ghost bound: nat) returns (timestamp: nat)
      requires ValidState(State()) && now >= lastTimestamp
      requires now == lastTimestamp && sequence == SequenceMask ==>
                 clock.tick <= bound < |clock.readings| && clock.readings[bound] > lastTimestamp
      modifies this`lastTimestamp, this`sequence, clock
      ensures timestamp == lastTimestamp
      ensures Step(old(State()), now, lastTimestamp) == Ok(State())
      ensures if now == old(lastTimestamp) && old(sequence) == SequenceMask then
                clock.WaitedPast(old(clock.tick), old(lastTimestamp), lastTimestamp)
              else
                clock.tick == old(clock.tick)
    {
      ghost var s := State();
      StepCases(s, now, now);
      timestamp := now;
      if lastTimestamp == timestamp {
        sequence := IncrementSequence(sequence);
        if sequence == 0 {
          timestamp := TilNextMillis(clock, lastTimestamp, bound);
          ghost var waited := clock.tick;
          lastTimestamp := timestamp;
          assert clock.tick == waited;
          StepCases(s, now, timestamp);
        }
      } else {
        sequence := 0;
        lastTimestamp := timestamp;
      }
    }

    /** Issues the identifier for a clock reading `now` that is not behind
        the last timestamp: advances the state and records the identifier. */
    method Issue(clock: Clock, now: nat, ghost bound: nat) returns (id: nat)
      requires Valid() && now >= lastTimestamp
      requires now == lastTimestamp && sequence == SequenceMask ==>
                 clock.tick <= bound < |clock.readings| && clock.readings[bound] > lastTimestamp
      modifies this, clock
      ensures Valid()
      ensures lastTimestamp >= 0 && Step(old(State()), now, lastTimestamp) == Ok(State())
      ensures id == IdOf(workerId, datacenterId, State()) && Issued == old(Issued) + [id]
      ensures Before(old(State()), State())
      ensures if now == old(lastTimestamp) && old(sequence) == SequenceMask then
                clock.WaitedPast(old(clock.tick), old(lastTimestamp), lastTimestamp)
              else
                clock.tick == old(clock.tick)
    {
      ghost var s := State();
      var timestamp := Advance(clock, now, bound);
      id := ComposeId(timestamp, datacenterId, workerId, sequence);
      ComposeIdIsSum(timestamp, datacenterId, workerId, sequence);
      StepAdvances(s, now, lastTimestamp);
      if Issued != [] {
        StepIdIncreases(workerId, datacenterId, s, now, lastTimestamp);
      }
      AppendIncreasing(Issued, id);
      Issued := Issued + [id];
    }

    /** Produces the next identifier as a decimal string, or refuses because
        the clock moved backwards, in which case the state is untouched. When
        the sequence runs out within the current millisecond, the identifier
        carries the first later reading past the last timestamp; a reading
        that ends that wait must then be on the trace. */
    method NextId(clock: Clock) returns (r: Result<string, ClockError>)
      requires Valid()
      requires clock.tick < |clock.readings|
      requires sequence == SequenceMask && clock.readings[clock.tick] == lastTimestamp
               ==> clock.Exceeds(lastTimestamp)
      modifies this, clock
      ensures Valid()
      ensures var now := clock.readings[old(clock.tick)];
              now < old(lastTimestamp) ==>
                r == Err(ClockMovedBackwards(old(lastTimestamp) - now))
                && State() == old(State()) && Issued == old(Issued)
      ensures var now := clock.readings[old(clock.tick)];
              now >= old(lastTimestamp) ==>
                lastTimestamp >= 0 && Step(old(State()), now, lastTimestamp) == Ok(State())
                && Issued == old(Issued) + [IdOf(workerId, datacenterId, State())]
                && r == Ok(NatToString(IdOf(workerId, datacenterId, State())))
      ensures r.Ok? ==> Before(old(State()), State())
      ensures var now := clock.readings[old(clock.tick)];
              now == old(lastTimestamp) && old(sequence) == SequenceMask ==>
                clock.WaitedPast(old(clock.tick) + 1, old(lastTimestamp), lastTimestamp)
      ensures var now := clock.readings[old(clock.tick)];
              !(now == old(lastTimestamp) && old(sequence) == SequenceMask) ==> clock.tick == old(clock.tick) + 1
    {
      ghost var bound: nat := 0;
      if sequence == SequenceMask && clock.readings[clock.tick] == lastTimestamp {
        bound :| clock.tick <= bound < |clock.readings| && clock.readings[bound] > lastTimestamp;
      }
      var timestamp := clock.TimeGen();
      if timestamp < lastTimestamp {
        return Err(ClockMovedBackwards(lastTimestamp - timestamp));
      }
      var id := Issue(clock, timestamp, bound);
      r := Ok(NatToString(id));
    }
  }

  /** The factory: validates the worker id, then the datacenter id, then
      builds a generator that has produced nothing yet. */
  method SnowFlakeId(workerId: int, datacenterId: int) returns (r: Result<Generator, ConstructError>)
    ensures r.Ok? <==> Validate(workerId, datacenterId).Ok?
    ensures r.Err? ==> r.error == Validate(workerId, datacenterId).error
    ensures r.Ok? ==> fresh(r.value) && r.value.Valid()
                      && r.value.workerId == workerId && r.value.datacenterId == datacenterId
                      && r.value.State() == Initial && r.value.Issued == []
  {
    var v := Validate(workerId, datacenterId);
    if v.Err? {
      return Err(v.error);
    }
    var g := new Generator(workerId, datacenterId);
    r := Ok(g);
  }

  /** Generator (5, 10) asked twice within one millisecond: both identifiers
      carry the generator's ids and the same timestamp, and the second's
      sequence is the first's plus one. */
  method SameMillisecondExample() returns (first: string, second: string)
    ensures IsDecimal(first) && IsDecimal(second)
    ensures var a, b := DecodeId(ParseDecimal(first)), DecodeId(ParseDecimal(second));
            a.workerId == 5 && a.datacenterId == 10 && b.workerId == 5 && b.datacenterId == 10
            && b.timestamp == a.timestamp && b.sequence == a.sequence + 1
  {
    var clock := new Clock([1700000000000, 1700000000000]);
    var created := SnowFlakeId(5, 10);
    var g := created.value;
    var r1 := g.NextId(clock);
    var s1 := g.State();
    var r2 := g.NextId(clock);
    StepCases(s1, 1700000000000, g.lastTimestamp);
    first, second := r1.value, r2.value;
    ParseNatToString(IdOf(5, 10, s1));
    ParseNatToString(IdOf(5, 10, g.State()));
    DecodeIdOf(5, 10, s1);
    DecodeIdOf(5, 10, g.State());
  }
}
