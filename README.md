# Snowflake identifier generator, modelled in Dafny

The generator in `src/snow-flake-id.js` hands out 64-bit-style "snowflake"
identifiers as decimal strings. `SnowFlakeId(workerId, datacenterId)` checks
both ids against the range 0..31 and returns an object with one method,
`nextId`. That method reads the millisecond clock, refuses to go on if the
clock is behind the last timestamp it used, counts a 12-bit sequence within
one millisecond (busy-waiting for the next millisecond when the 4096 values
are used up), and lays out timestamp, datacenter id, worker id and sequence
at bit offsets 22, 17, 12 and 0 of a BigInt, which it renders with
`toString()`.

The model has four modules:

- `Bits` (`bits.dfy`): `<<`, `>>`, `|` and `&` on non-negative unbounded
  integers, defined bit by bit as BigInt computes them, with lemmas relating
  them to multiplication, division and remainder.
- `Decimal` (`decimal.dfy`): the decimal rendering of a non-negative BigInt
  and the parser that inverts it.
- `SnowFlakeSpec` (`snowflake_spec.dfy`): the constants, the validation of
  the two ids, the composition of an identifier and its decoding, and one
  call of `nextId` as a pure transition `Step` on the pair
  (`lastTimestamp`, `sequence`).
- `SnowFlake` (`snowflake.dfy`): the imperative part. It has a `Clock` class
  that yields a trace of readings, the `TilNextMillis` busy-wait loop, a
  `Generator` class whose two mutable fields are the closure variables of
  the source, and the `SnowFlakeId` factory. The generator's methods
  (`NextId`, `Issue`, `Advance`) are proved against `Step`; the clock read
  and the wait are specified by the readings they consume. The generator
  keeps a ghost record of every identifier it has returned, and its
  invariant says that this record strictly increases.

Both thrown errors become `Err` values of a `Result`. `ConstructMessage` and
`ClockMessage` give the texts the source puts in those errors.

The identifier is not truncated. The code shifts the full `Date.now()` value
into a BigInt and never masks the timestamp to 42 bits, unlike the usual
snowflake layout with a 42-bit timestamp field; the model follows the code.
`ComposeIdBelow64Bits` shows that the identifier fits in 64 bits whenever
the timestamp is below 2^42.

## Model

| member | source | states |
|---|---|---|
| SnowFlakeSpec.Validate | src/snow-flake-id.js:76-81 | construction succeeds exactly when both ids lie in 0..31; an out-of-range worker id is reported whatever the datacenter id, and the datacenter error is reported only when the worker id is valid |
| SnowFlake.SnowFlakeId | src/snow-flake-id.js:52-81 | the factory succeeds exactly when validation does and otherwise returns validation's error; on success it returns a fresh generator carrying the given ids, in the initial state (-1, 0), that has issued nothing and satisfies the generator invariant |
| SnowFlake.Generator.constructor | src/snow-flake-id.js:72-74 | a new generator starts with lastTimestamp = -1 and sequence = 0 and has issued no identifier |
| SnowFlakeSpec.ConstructMessageInjective | src/snow-flake-id.js:76-81 | the worker-id and datacenter-id errors carry different messages |
| SnowFlakeSpec.ClockMessageInjective | src/snow-flake-id.js:91 | the backwards-clock message determines the number of milliseconds it reports |
| SnowFlakeSpec.IncrementSequence | src/snow-flake-id.js:95 | `(sequence + 1) & 4095` never leaves 0..4095: it is sequence + 1 below 4095 and wraps 4095 round to 0 |
| SnowFlakeSpec.Step | src/snow-flake-id.js:89-104 | one call of `nextId` fails exactly when the clock reads earlier than the last timestamp, reporting the difference; on success the new timestamp is set (not -1) and the sequence is in 0..4095 |
| SnowFlakeSpec.StepCases | src/snow-flake-id.js:89-104 | the outcome of each branch of `nextId`: a backwards clock gives the error with lastTimestamp - timestamp; the same millisecond increments the sequence, or waits and starts the next millisecond at sequence 0 when it wraps; a later millisecond resets the sequence to 0 |
| SnowFlakeSpec.StepAdvances | src/snow-flake-id.js:90-104 | when the wait returns a reading past the last timestamp, a successful call leaves a valid state that is strictly later in (timestamp, sequence) order |
| SnowFlakeSpec.ComposeId | src/snow-flake-id.js:113-116 | the ORed shifted fields are at least the shifted timestamp and at most the sum of the shifted fields, whatever the fields |
| SnowFlakeSpec.ComposeIdIsSum | src/snow-flake-id.js:108-116 | the ORed shifted fields equal timestamp * 2^22 + datacenterId * 2^17 + workerId * 2^12 + sequence |
| SnowFlakeSpec.DecodeComposeId | src/snow-flake-id.js:113-116 | shifting and masking an identifier gives back its timestamp, datacenter id, worker id and sequence |
| SnowFlakeSpec.ComposeIdInjective | src/snow-flake-id.js:113-116 | two identifiers built from in-range fields are equal only when all four fields are, so generators with different (worker, datacenter) pairs never collide |
| SnowFlakeSpec.ComposeIdBelow64Bits | src/snow-flake-id.js:108-116 | with a timestamp below 2^42 the untruncated identifier is below 2^64 |
| SnowFlakeSpec.DecodeIdOf | src/snow-flake-id.js:113-116 | the identifier of a generator state decodes to the generator's ids, the state's timestamp and its sequence |
| SnowFlakeSpec.IdOfMonotone | src/snow-flake-id.js:113-116 | for fixed ids, a state later in (timestamp, sequence) order has a larger identifier |
| SnowFlakeSpec.StepIdIncreases | src/snow-flake-id.js:93-116 | the identifier after a successful `nextId` is larger than the one before it |
| Bits.BitOr | src/snow-flake-id.js:113-116 | OR of two non-negative integers is at least each operand and at most their sum |
| Bits.ShiftLeftIsMul | src/snow-flake-id.js:113-116 | a left shift by k bits multiplies by 2^k |
| Bits.OrBelowShift | src/snow-flake-id.js:113-116 | OR-ing a value below 2^k into a value shifted left by k bits adds the two |
| Bits.OrShift | src/snow-flake-id.js:113-116 | OR commutes with a common left shift |
| Bits.AndLowMask | src/snow-flake-id.js:95 | AND with 2^k - 1 keeps the value modulo 2^k |
| Decimal.NatToString | src/snow-flake-id.js:118 | `toString()` yields a non-empty string of decimal digits with no leading zero unless the value is 0 |
| Decimal.ParseNatToString | src/snow-flake-id.js:118 | parsing the rendered string gives back the identifier |
| Decimal.NatToStringInjective | src/snow-flake-id.js:118 | different identifiers render as different strings |
| SnowFlake.Clock.TimeGen | src/snow-flake-id.js:127-129 | each read returns the next reading of the clock's trace and advances it by one |
| SnowFlake.TilNextMillis | src/snow-flake-id.js:136-141 | the wait returns the first reading past lastTimestamp, having read the clock until then |
| SnowFlake.Generator.Advance | src/snow-flake-id.js:93-104 | the branches of `nextId` on a reading that is not behind: the new (lastTimestamp, sequence) is what `Step` gives, the returned timestamp is the new lastTimestamp, and the clock is read again only when the sequence wraps, up to the first reading past the old timestamp |
| SnowFlake.Generator.Issue | src/snow-flake-id.js:93-116 | after the branches, the returned identifier is the composition of the new state, it is appended to the issued record, and the generator invariant (strictly increasing record, last entry = identifier of the state) is kept |
| SnowFlake.Generator.NextId | src/snow-flake-id.js:88-119 | a reading behind lastTimestamp gives the backwards-clock error with the difference and leaves the state and record untouched; otherwise the state moves as `Step` says, the result is the decimal string of the new state's identifier, that identifier is appended to the record, and the state moves strictly forward; when the sequence wraps, the new timestamp is the first later reading past the old one and the clock is read up to it, otherwise it is read once |
| SnowFlake.SameMillisecondExample | src/snow-flake-id.js:93-118 | two calls within one millisecond on generator (5, 10) give decimal strings that decode to the same timestamp and ids, with the second sequence one above the first |

## Left out

- `RandomSnowFlakeId` (src/snow-flake-id.js:23-44) is not modelled. It draws the ids from `Math.random` and browser `localStorage`, which are randomness and environment I/O.
- `generateSnowflakeId` and the `snowFlakeInstance` singleton (src/snow-flake-id.js:6-17) are not modelled. They only create one global generator lazily.
- `timeGen` (src/snow-flake-id.js:127-129) is not `Date.now()` here. The clock is a finite trace of non-negative readings fixed when the `Clock` is built, and it may stand still or go backwards. Real time is not modelled.
- SnowFlake.Generator.NextId: when the sequence is 4095 and the next reading equals the last timestamp, requires a later reading past the last timestamp on the trace. Without one the source's busy wait would spin forever; the model only covers calls whose wait ends.
- SnowFlake.Generator.NextId: requires at least one reading left on the trace, since a finite trace stands for the clock.
- The exceptions thrown at src/snow-flake-id.js:77, 80 and 91 are returned as `Err` values. The message texts are given by `ConstructMessage` and `ClockMessage`, but are not attached to the result.
- The ids are `int`. JavaScript's `NaN` and non-integer numbers, which slip through the range checks at src/snow-flake-id.js:76-81, are not modelled.
- Concurrency is not modelled. JavaScript runs `nextId` on one thread, and the code has no locking.
- `nextId` is split into `NextId` (clock read and backwards check), `Issue` (identifier and record) and `Advance` (the three branches). The split keeps each proof small, and together they run the source's statements in order.
- The record of issued identifiers (`Issued`) is ghost. The source keeps no such list.
- `src/snow-flake-id.d.ts` holds type declarations only, and `rollup.config.js` holds build configuration only.
