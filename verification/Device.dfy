/**
  A device behind drivers/device.c, as a launch sees it: every call may fail, and between a run and the stop
  that ends it the kernel may change memory in any way. What happens at which call is fixed in advance by an
  arbitrary Env. Reads and writes require the device to be halted, so a caller that verifies never touches the
  memory of a running device.
 */
module Device {
  import opened Bits
  import opened Codes
  import opened DeviceMemory

  /** Call number `t` returns `fault(t)`. A failed reset, run or stop may have taken effect, or not, or have left a
      running kernel half-way, with any effect on memory that `kernels` has; a failed transfer leaves garbage in
      its own range. */
  datatype Env = Env(
    kernels: Kernels, fault: nat -> int, took: nat -> bool, partial: nat -> nat, junk: nat -> seq<byte>)

  function Overlay(was: seq<byte>, junk: seq<byte>): (now: seq<byte>)
    ensures |now| == |was|
  {
    if |junk| <= |was| then junk + was[|junk|..] else junk[..|was|]
  }

  /** A device between two calls. */
  datatype Moment = Moment(dev: Dev, faulted: bool)

  /** A call of reset: the device just before it, and whether it succeeded. */
  datatype ResetCall = ResetCall(before: Moment, ok: bool)

  /** Every call of reset so far, and device memory at every call of run. */
  datatype History = History(resets: seq<ResetCall>, given: seq<Memory>)

  /** From `was` to `now` there were runs and no resets. */
  ghost predicate Further(was: History, now: History) {
    now.resets == was.resets && was.given <= now.given
  }

  /** The same, and the first of these runs was given memory `mem`. */
  ghost predicate RunFrom(was: History, now: History, mem: Memory) {
    Further(was, now) && |was.given| < |now.given| && now.given[|was.given|] == mem
  }

  lemma FurtherTwice(was: History, mid: History, now: History, mem: Memory)
    requires Further(mid, now)
    ensures Further(was, mid) ==> Further(was, now)
    ensures RunFrom(was, mid, mem) ==> RunFrom(was, now, mem)
  {
  }

  class Device {
    const env: Env
    var dev: Dev
    var clock: nat

    /** No reset has succeeded yet, or a call has failed since the last one that did, with this error. */
    var faulted: bool
    var error: int

    /** The state before the last successful reset and the operations carried out since, it included. */
    var origin: Dev
    var trace: seq<Op>

    /** All resets and runs so far, and the number of stops. */
    ghost var past: History
    ghost var stops: nat

    constructor (env: Env, dev: Dev)
      ensures Valid() && this.env == env && this.dev == dev && faulted
    {
      this.env := env;
      this.dev := dev;
      clock, faulted, error := 0, true, CL_SUCCESS;
      origin, trace := dev, [];
      past, stops := History([], []), 0;
    }

    ghost predicate Valid()
      reads this
    {
      !faulted ==>
        && dev == After(env.kernels, origin, trace)
        && Paired(trace)
        && (dev.running <==> EndsInRun(trace))
    }

    function Now(): Moment
      reads this
    {
      Moment(dev, faulted)
    }

    /** The last call failed with error `r`. */
    predicate Failed(r: int)
      reads this
    {
      faulted && error == r
    }

    /** What a failed reset, run or stop leaves. */
    static ghost predicate Broken(kernels: Kernels, was: Dev, now: Dev, op: Op) {
      || now == was
      || now == Step(kernels, was, op)
      || (was.running && exists n: nat :: now == was.(mem := kernels(n)(was.mem)))
    }

    method Break(t: nat, r: int, op: Op)
      modifies this`faulted, this`error, this`dev
      ensures Failed(r) && Broken(env.kernels, old(dev), dev, op)
    {
      faulted, error := true, r;
      if env.took(t) {
        dev := Step(env.kernels, dev, op);
      } else if dev.running {
        dev := dev.(mem := env.kernels(env.partial(t))(dev.mem));
      }
    }

    /** The operation `op` was carried out. */
    twostate predicate Did(op: Op)
      reads this
    {
      && !faulted
      && dev == Step(env.kernels, old(dev), op)
      && trace == old(trace) + [op]
    }

    method Next() returns (code: int, t: nat)
      modifies this`clock
      ensures clock == old(clock) + 1 && t == old(clock) && code == env.fault(t)
    {
      t := clock;
      code := env.fault(t);
      clock := clock + 1;
    }

    method Record(op: Op)
      requires Valid() && !faulted && (op.Stop? <==> dev.running)
      modifies this`dev, this`trace
      ensures Valid() && dev == Step(env.kernels, old(dev), op) && trace == old(trace) + [op]
    {
      hide After;
      AfterSnoc(env.kernels, origin, trace, op);
      PairedSnoc(trace, op);
      dev, trace := Step(env.kernels, dev, op), trace + [op];
    }

    method Reset() returns (r: int)
      modifies this
      ensures Valid() && stops == old(stops)
      ensures past == old(past).(resets := old(past.resets) + [ResetCall(old(Now()), r == CL_SUCCESS)])
      ensures r == CL_SUCCESS ==>
        !faulted && !dev.running && dev == Step(env.kernels, old(dev), Op.Reset) && origin == old(dev) && trace == [Op.Reset]
      ensures r != CL_SUCCESS ==> Failed(r) && Broken(env.kernels, old(dev), dev, Op.Reset) && trace == old(trace)
    {
      var t;
      r, t := Next();
      past := past.(resets := past.resets + [ResetCall(Now(), r == CL_SUCCESS)]);
      if r != CL_SUCCESS {
        Break(t, r, Op.Reset);
        return;
      }
      origin, trace := dev, [Op.Reset];
      dev, faulted := Step(env.kernels, dev, Op.Reset), false;
      assert trace[..0] == [];
      assert After(env.kernels, origin, []) == origin;
    }

    method Run() returns (r: int)
      requires Valid() && !faulted && !dev.running
      modifies this
      ensures Valid() && stops == old(stops) && origin == old(origin)
      ensures past == old(past).(given := old(past.given) + [old(dev.mem)])
      ensures r == CL_SUCCESS ==> Did(Op.Run)
      ensures r != CL_SUCCESS ==> Failed(r) && Broken(env.kernels, old(dev), dev, Op.Run) && trace == old(trace)
    {
      past := past.(given := past.given + [dev.mem]);
      var t;
      r, t := Next();
      if r != CL_SUCCESS {
        Break(t, r, Op.Run);
        return;
      }
      Record(Op.Run);
    }

    method Stop() returns (r: int)
      requires Valid() && !faulted && dev.running
      modifies this
      ensures Valid() && past == old(past) && stops == old(stops) + 1 && origin == old(origin)
      ensures r == CL_SUCCESS ==> Did(Op.Stop)
      ensures r != CL_SUCCESS ==> Failed(r) && Broken(env.kernels, old(dev), dev, Op.Stop) && trace == old(trace)
    {
      stops := stops + 1;
      var t;
      r, t := Next();
      if r != CL_SUCCESS {
        Break(t, r, Op.Stop);
        return;
      }
      Record(Op.Stop);
    }

    /** `dev_read_mem` into a buffer that holds `was`. Nothing is asked of the device for zero bytes. */
    method ReadMem(addr: nat, was: seq<byte>) returns (r: int, now: seq<byte>)
      requires Valid() && !faulted && !dev.running
      modifies this
      ensures Valid() && past == old(past) && stops == old(stops) && origin == old(origin) && dev == old(dev) && |now| == |was|
      ensures r == CL_SUCCESS ==>
        && now == Read(dev.mem, addr, |was|)
        && if |was| == 0 then unchanged(this) else Did(Op.ReadMem(addr, |was|))
      ensures r != CL_SUCCESS ==> Failed(r) && |was| > 0 && trace == old(trace)
    {
      if |was| == 0 {
        return CL_SUCCESS, was;
      }
      var t;
      r, t := Next();
      if r != CL_SUCCESS {
        faulted, error := true, r;
        return r, Overlay(was, env.junk(t));
      }
      Record(Op.ReadMem(addr, |was|));
      now := Read(dev.mem, addr, |was|);
    }

    /** `dev_write_mem` */
    method WriteMem(addr: nat, bytes: seq<byte>) returns (r: int)
      requires Valid() && !faulted && !dev.running
      modifies this
      ensures Valid() && past == old(past) && stops == old(stops) && origin == old(origin)
      ensures r == CL_SUCCESS ==>
        && !faulted && dev == old(dev).(mem := Write(old(dev.mem), addr, bytes))
        && if |bytes| == 0 then unchanged(this) else Did(Op.WriteMem(addr, bytes))
      ensures r != CL_SUCCESS ==>
        && Failed(r) && |bytes| > 0 && trace == old(trace)
        && dev == old(dev).(mem := dev.mem) && SameOutside(old(dev.mem), dev.mem, addr, |bytes|)
    {
      if |bytes| == 0 {
        WriteNothing(dev.mem, addr);
        return CL_SUCCESS;
      }
      var t;
      r, t := Next();
      if r != CL_SUCCESS {
        faulted, error := true, r;
        var junk := env.junk(t);
        dev := dev.(mem := Write(dev.mem, addr, if |junk| <= |bytes| then junk else junk[..|bytes|]));
        return;
      }
      Record(Op.WriteMem(addr, bytes));
    }
  }
}
