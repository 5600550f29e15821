/**
 * The `libsocket::selectset` class of C++/select.cpp: a registry of sockets with
 * read and write interest sets, and a `wait` that asks `select()` which of them are
 * ready and translates the answer back into the registered socket objects.
 */
module LibSocket {
  import opened Wrappers

  /** The interest kinds accepted by `add_fd` (the source's `#define READ 1`, `#define WRITE 2`). */
  const READ: int := 1
  const WRITE: int := 2

  const MICROS_PER_SEC: int := 1000000

  /** Prefix of the message of the exception `wait` throws when `select()` fails. */
  const WAIT_ERROR_PREFIX: string := "selectset::wait(): Error at select(): "

  /** C's 64-bit `long long`, the type of `wait`'s timeout and of the `timeval` fields. */
  newtype LongLong = x: int | -0x8000_0000_0000_0000 <= x < 0x8000_0000_0000_0000

  /** A socket owned by the caller; the select set only reads its descriptor (`getfd()`). */
  class Socket {
    const fd: int

    constructor (fd: int)
      ensures this.fd == fd
    {
      this.fd := fd;
    }
  }

  /** `socket_exception`, reduced to its message. */
  datatype SocketException = SocketException(mesg: string)

  /** `struct timeval` as `wait` fills it in. */
  datatype TimeVal = TimeVal(tvSec: LongLong, tvUsec: LongLong)

  /** The pair of vectors `wait` returns: sockets ready for reading, then for writing. */
  type ReadyLists = (seq<Socket>, seq<Socket>)

  // ---------------------------------------------------------------------------
  // Timeout conversion
  // ---------------------------------------------------------------------------

  /**
   * `microsecs % 1000000` with C's `%`: the remainder truncated toward zero, so it takes
   * the sign of `microsecs`, and what is left after removing it is a whole number of seconds.
   */
  function MicroPart(microsecs: int): (r: int)
    ensures (microsecs - r) % MICROS_PER_SEC == 0
    ensures microsecs >= 0 ==> 0 <= r < MICROS_PER_SEC
    ensures microsecs < 0 ==> -MICROS_PER_SEC < r <= 0
  {
    if microsecs >= 0 then microsecs % MICROS_PER_SEC else -((-microsecs) % MICROS_PER_SEC)
  }

  /**
   * The timeout pointer `wait` hands to `select()`: NULL (block indefinitely) for zero,
   * otherwise a `timeval` whose `tv_sec` is `microsecs` rounded toward zero to a whole
   * number of seconds, still counted in microseconds, and whose `tv_usec` is `microsecs`
   * itself.
   */
  function WaitTimeout(microsecs: LongLong): (t: Option<TimeVal>)
    ensures t.None? <==> microsecs == 0
    ensures t.Some? ==> t.value.tvUsec == microsecs
    ensures t.Some? ==> (t.value.tvSec as int) % MICROS_PER_SEC == 0
    ensures t.Some? && microsecs > 0 ==> 0 <= microsecs as int - t.value.tvSec as int < MICROS_PER_SEC
    ensures t.Some? && microsecs < 0 ==> -MICROS_PER_SEC < microsecs as int - t.value.tvSec as int <= 0
  {
    if microsecs == 0 then None
    else
      var micropart := MicroPart(microsecs as int);
      var secpart := microsecs as int - micropart;
      Some(TimeVal(secpart as LongLong, microsecs))
  }

  /**
   * The conversion does not normalise: from one second on, `tv_usec` is outside the
   * range [0, 1000000) that a `timeval` is meant to hold, `tv_sec` holds a count of
   * microseconds where seconds are expected (at least 1000000 of them), and the two
   * fields together denote more time than was asked for.
   */
  lemma TimeoutNotNormalised(microsecs: LongLong)
    requires microsecs as int >= MICROS_PER_SEC
    ensures WaitTimeout(microsecs).Some?
    ensures WaitTimeout(microsecs).value.tvUsec as int >= MICROS_PER_SEC
    ensures WaitTimeout(microsecs).value.tvSec as int >= MICROS_PER_SEC
    ensures var t := WaitTimeout(microsecs).value;
      t.tvSec as int * MICROS_PER_SEC + t.tvUsec as int > microsecs as int
  {
  }

  // ---------------------------------------------------------------------------
  // highestfd
  // ---------------------------------------------------------------------------

  /** The value of `highestfd`'s running maximum after scanning `v`, starting from 0. */
  function Highest(v: seq<int>): (h: int)
    ensures h >= 0
    ensures forall x :: x in v ==> x <= h
    ensures h == 0 || h in v
    decreases |v|
  {
    if v == [] then 0
    else
      assert v == v[..|v| - 1] + [v[|v| - 1]];
      var rest := Highest(v[..|v| - 1]);
      if v[|v| - 1] > rest then v[|v| - 1] else rest
  }

  /** `highestfd`: the running-max loop over the descriptor list. */
  method HighestFd(v: seq<int>) returns (h: int)
    ensures h == Highest(v)
    ensures h >= 0 && (h == 0 || h in v)
    ensures forall x :: x in v ==> x <= h
  {
    h := 0;
    var i := 0;
    while i < |v|
      invariant 0 <= i <= |v|
      invariant h == Highest(v[..i])
    {
      assert v[..i + 1][..i] == v[..i];
      if v[i] > h {
        h := v[i];
      }
      i := i + 1;
    }
    assert v[..|v|] == v;
  }

  // ---------------------------------------------------------------------------
  // select()
  // ---------------------------------------------------------------------------

  /** The arguments `wait` passes to `select()` (no exception set is monitored). */
  datatype SelectCall = SelectCall(nfds: int, readfds: set<int>, writefds: set<int>, timeout: Option<TimeVal>)

  /**
   * What the kernel reports when `select()` returns: the descriptors that are readable
   * and writable at that moment, or the error text (`strerror(errno)`) of a failed call.
   */
  datatype Readiness = Readiness(readable: set<int>, writable: set<int>, failure: Option<string>)

  /** `select()`'s return value and the two descriptor sets as it leaves them. */
  datatype SelectReply = SelectReply(n: int, readfds: set<int>, writefds: set<int>)

  /**
   * `select()` as an oracle: on failure it returns -1 and leaves the sets alone; otherwise
   * it keeps in each set exactly the descriptors below `nfds` that the kernel reports
   * ready, and returns how many it kept in both sets together.
   */
  function SysSelect(call: SelectCall, k: Readiness): (r: SelectReply)
    ensures r.readfds <= call.readfds && r.writefds <= call.writefds
    ensures r.n < 0 <==> k.failure.Some?
    ensures r.n < 0 ==> r.readfds == call.readfds && r.writefds == call.writefds
    ensures r.n >= 0 ==> forall fd :: fd in call.readfds ==>
      (fd in r.readfds <==> fd in k.readable && 0 <= fd < call.nfds)
    ensures r.n >= 0 ==> forall fd :: fd in call.writefds ==>
      (fd in r.writefds <==> fd in k.writable && 0 <= fd < call.nfds)
    ensures r.n == 0 ==> r.readfds == {} && r.writefds == {}
    ensures r.n >= 0 ==> r.n == |r.readfds| + |r.writefds|
  {
    if k.failure.Some? then SelectReply(-1, call.readfds, call.writefds)
    else
      var rs := set fd | fd in call.readfds && fd in k.readable && 0 <= fd < call.nfds;
      var ws := set fd | fd in call.writefds && fd in k.writable && 0 <= fd < call.nfds;
      SelectReply(|rs| + |ws|, rs, ws)
  }

  /**
   * Whether `select()` can come back with report `k` for `call`: with a NULL timeout it
   * blocks until it fails or a watched descriptor below the bound is ready, so it never
   * comes back with nothing ready and no error.
   */
  predicate CanReturn(call: SelectCall, k: Readiness)
  {
    call.timeout.None? ==>
      || k.failure.Some?
      || (exists fd :: fd in call.readfds && fd in k.readable && 0 <= fd < call.nfds)
      || (exists fd :: fd in call.writefds && fd in k.writable && 0 <= fd < call.nfds)
  }

  /** A call with a NULL timeout never times out: it fails or reports something ready. */
  lemma NullTimeoutNeverTimesOut(call: SelectCall, k: Readiness)
    requires call.timeout.None? && CanReturn(call, k)
    ensures SysSelect(call, k).n != 0
  {
  }

  // ---------------------------------------------------------------------------
  // The result partition
  // ---------------------------------------------------------------------------

  /** Every descriptor of `fds` has a socket in `m`. */
  predicate FdsMapped(fds: seq<int>, m: map<int, Socket>)
  {
    forall fd :: fd in fds ==> fd in m
  }

  /** Every socket in `m` is stored under its own descriptor (what `fdsockmap[fd] = &sock` keeps). */
  predicate KeysCarried(m: map<int, Socket>)
  {
    forall fd :: fd in m ==> m[fd].fd == fd
  }

  /**
   * The vector the result loop builds for one interest set: walking `fds` in order, the
   * socket of every descriptor found in `ready`, once per occurrence.
   */
  function ReadyFor(fds: seq<int>, ready: set<int>, m: map<int, Socket>): seq<Socket>
    requires forall fd :: fd in fds && fd in ready ==> fd in m
    decreases |fds|
  {
    if fds == [] then []
    else
      var last := fds[|fds| - 1];
      ReadyFor(fds[..|fds| - 1], ready, m) + (if last in ready then [m[last]] else [])
  }

  /** The result follows registration order: the result of a concatenation is the concatenation of the results. */
  lemma {:induction false} ReadyForAppend(a: seq<int>, b: seq<int>, ready: set<int>, m: map<int, Socket>)
    requires FdsMapped(a + b, m)
    ensures ReadyFor(a + b, ready, m) == ReadyFor(a, ready, m) + ReadyFor(b, ready, m)
    decreases |b|
  {
    if b == [] {
      assert a + b == a;
    } else {
      var b', x := b[..|b| - 1], b[|b| - 1];
      assert (a + b)[..|a + b| - 1] == a + b';
      assert (a + b)[|a + b| - 1] == x;
      ReadyForAppend(a, b', ready, m);
    }
  }

  /**
   * A socket is in the result exactly when its descriptor is in `fds` and in `ready`
   * and it is the socket `m` holds for that descriptor.
   */
  lemma {:induction false} ReadyForExact(fds: seq<int>, ready: set<int>, m: map<int, Socket>)
    requires FdsMapped(fds, m) && KeysCarried(m)
    ensures forall s :: s in ReadyFor(fds, ready, m) <==> s.fd in fds && s.fd in ready && m[s.fd] == s
    decreases |fds|
  {
    if fds != [] {
      var init, last := fds[..|fds| - 1], fds[|fds| - 1];
      assert fds == init + [last];
      ReadyForExact(init, ready, m);
    }
  }

  /**
   * Duplicates are kept: the socket of a descriptor that is ready occurs in the result as
   * many times as the descriptor occurs in `fds`, and not at all when it is not ready.
   */
  lemma {:induction false} ReadyForMultiplicity(fds: seq<int>, ready: set<int>, m: map<int, Socket>, fd: int)
    requires FdsMapped(fds, m) && KeysCarried(m) && fd in m
    ensures multiset(ReadyFor(fds, ready, m))[m[fd]] == if fd in ready then multiset(fds)[fd] else 0
    decreases |fds|
  {
    if fds != [] {
      var init, last := fds[..|fds| - 1], fds[|fds| - 1];
      assert fds == init + [last];
      ReadyForMultiplicity(init, ready, m, fd);
      assert m[last] == m[fd] <==> last == fd;
    }
  }

  /**
   * What `wait` returns once `select()` has answered `reply`: the exception when it
   * failed, two empty vectors when nothing is ready, and otherwise the sockets of the
   * registration list whose descriptors it left in each set.
   */
  function WaitOutcome(reply: SelectReply, k: Readiness, fds: seq<int>, m: map<int, Socket>): Result<ReadyLists, SocketException>
    requires reply.n < 0 ==> k.failure.Some?
    requires FdsMapped(fds, m)
  {
    if reply.n < 0 then Failure(SocketException(WAIT_ERROR_PREFIX + k.failure.value))
    else if reply.n == 0 then Success(([], []))
    else Success((ReadyFor(fds, reply.readfds, m), ReadyFor(fds, reply.writefds, m)))
  }

  /**
   * `wait` fails exactly when `select()` does, with the fixed message prefix; on success
   * a socket is in the read (write) vector exactly when it is the registered socket of a
   * descriptor that was in the read (write) interest set and that the kernel reports
   * readable (writable).
   */
  lemma WaitOutcomeExact(call: SelectCall, k: Readiness, fds: seq<int>, m: map<int, Socket>)
    requires FdsMapped(fds, m) && KeysCarried(m)
    requires call.nfds == Highest(fds) + 1
    requires forall fd :: fd in call.readfds ==> fd in fds
    requires forall fd :: fd in call.writefds ==> fd in fds
    ensures var r := WaitOutcome(SysSelect(call, k), k, fds, m);
      && (r.Failure? <==> k.failure.Some?)
      && (r.Failure? ==> WAIT_ERROR_PREFIX <= r.error.mesg)
      && (r.Success? ==> forall s :: s in r.value.0 <==>
            s.fd in call.readfds && s.fd in k.readable && 0 <= s.fd && m[s.fd] == s)
      && (r.Success? ==> forall s :: s in r.value.1 <==>
            s.fd in call.writefds && s.fd in k.writable && 0 <= s.fd && m[s.fd] == s)
  {
    var reply := SysSelect(call, k);
    if reply.n > 0 {
      ReadyForExact(fds, reply.readfds, m);
      ReadyForExact(fds, reply.writefds, m);
    }
  }

  // ---------------------------------------------------------------------------
  // selectset
  // ---------------------------------------------------------------------------

  class SelectSet {
    var readset: set<int>
    var writeset: set<int>
    /** Every registration appends, so a descriptor occurs once per `add_fd` call. */
    var filedescriptors: seq<int>
    var fdsockmap: map<int, Socket>
    var setUp: bool
    /** The arguments of the most recent `select()` call, kept only for the specification. */
    ghost var lastCall: Option<SelectCall>

    /**
     * The registry covers exactly the registered descriptors, each under its own socket;
     * the interest sets only hold registered descriptors; `set_up` records whether
     * anything was registered.
     */
    ghost predicate Valid()
      reads this
    {
      && FdsMapped(filedescriptors, fdsockmap)
      && KeysCarried(fdsockmap)
      && (forall fd :: fd in fdsockmap ==> fd in filedescriptors)
      && (forall fd :: fd in readset ==> fd in filedescriptors)
      && (forall fd :: fd in writeset ==> fd in filedescriptors)
      && (setUp <==> filedescriptors != [])
    }

    constructor ()
      ensures Valid()
      ensures readset == {} && writeset == {}
      ensures filedescriptors == [] && fdsockmap == map[] && !setUp
      ensures lastCall == None
    {
      readset := {};
      writeset := {};
      filedescriptors := [];
      fdsockmap := map[];
      setUp := false;
      lastCall := None;
    }

    /** `add_fd`: register `sock` for READ or WRITE interest; any other kind is ignored. */
    method AddFd(sock: Socket, kind: int)
      requires Valid()
      modifies this
      ensures Valid()
      ensures lastCall == old(lastCall)
      ensures kind == READ ==>
        && readset == old(readset) + {sock.fd} && writeset == old(writeset)
        && filedescriptors == old(filedescriptors) + [sock.fd]
        && fdsockmap == old(fdsockmap)[sock.fd := sock]
        && setUp
      ensures kind == WRITE ==>
        && writeset == old(writeset) + {sock.fd} && readset == old(readset)
        && filedescriptors == old(filedescriptors) + [sock.fd]
        && fdsockmap == old(fdsockmap)[sock.fd := sock]
        && setUp
      ensures kind != READ && kind != WRITE ==>
        && readset == old(readset) && writeset == old(writeset)
        && filedescriptors == old(filedescriptors) && fdsockmap == old(fdsockmap)
        && setUp == old(setUp)
    {
      var fd := sock.fd;
      if kind == READ {
        readset := readset + {fd};
        filedescriptors := filedescriptors + [fd];
        fdsockmap := fdsockmap[fd := sock];
        setUp := true;
      } else if kind == WRITE {
        writeset := writeset + {fd};
        filedescriptors := filedescriptors + [fd];
        fdsockmap := fdsockmap[fd := sock];
        setUp := true;
      }
    }

    /**
     * `wait`: call `select()` on the member sets (which it overwrites), throw on failure,
     * return two empty vectors on a timeout, and otherwise walk the registration list
     * collecting the sockets whose descriptors `select()` left in each set. `k` is what
     * the kernel reports when the call returns, one report `select()` can return with;
     * how long that takes is not modelled. A zero `microsecs` passes a NULL timeout, so
     * such a call never ends in the timeout branch.
     */
    method Wait(microsecs: LongLong, k: Readiness) returns (r: Result<ReadyLists, SocketException>)
      requires Valid()
      requires CanReturn(SelectCall(Highest(filedescriptors) + 1, readset, writeset, WaitTimeout(microsecs)), k)
      modifies this
      ensures Valid()
      ensures filedescriptors == old(filedescriptors) && fdsockmap == old(fdsockmap) && setUp == old(setUp)
      ensures
        var call := SelectCall(Highest(filedescriptors) + 1, old(readset), old(writeset), WaitTimeout(microsecs));
        var reply := SysSelect(call, k);
        && lastCall == Some(call)
        && readset == reply.readfds && writeset == reply.writefds
        && (microsecs == 0 ==> reply.n != 0)
        && r == WaitOutcome(reply, k, filedescriptors, fdsockmap)
    {
      var timeout := WaitTimeout(microsecs);
      var highest := HighestFd(filedescriptors);
      var call := SelectCall(highest + 1, readset, writeset, timeout);
      var reply := SysSelect(call, k);
      if microsecs == 0 {
        NullTimeoutNeverTimesOut(call, k);
      }
      lastCall := Some(call);
      readset, writeset := reply.readfds, reply.writefds;

      if reply.n < 0 {
        var err := k.failure.value;
        r := Failure(SocketException(WAIT_ERROR_PREFIX + err));
        return;
      } else if reply.n == 0 {
        r := Success(([], []));
        return;
      }

      var first: seq<Socket> := [];
      var second: seq<Socket> := [];
      var i := 0;
      while i < |filedescriptors|
        invariant 0 <= i <= |filedescriptors|
        invariant first == ReadyFor(filedescriptors[..i], readset, fdsockmap)
        invariant second == ReadyFor(filedescriptors[..i], writeset, fdsockmap)
      {
        var fd := filedescriptors[i];
        assert filedescriptors[..i + 1][..i] == filedescriptors[..i];
        if fd in readset {
          first := first + [fdsockmap[fd]];
        }
        if fd in writeset {
          second := second + [fdsockmap[fd]];
        }
        i := i + 1;
      }
      assert filedescriptors[..i] == filedescriptors;
      r := Success((first, second));
    }
  }

  // ---------------------------------------------------------------------------
  // Consequences of the code as written
  // ---------------------------------------------------------------------------

  /** The kernel report used by the scenarios below: `sock` is ready both ways. */
  function BothReady(sock: Socket): Readiness
  {
    Readiness({sock.fd}, {sock.fd}, None)
  }

  /** A descriptor registered twice yields its socket twice if it is in `ready`, and not at all otherwise. */
  lemma RegisteredTwice(sock: Socket, ready: set<int>)
    ensures ReadyFor([sock.fd, sock.fd], ready, map[sock.fd := sock])
      == if sock.fd in ready then [sock, sock] else []
  {
    var fd, m := sock.fd, map[sock.fd := sock];
    assert [fd, fd][..1] == [fd] && [fd][..0] == [];
    assert ReadyFor([fd], ready, m) == if fd in ready then [sock] else [];
  }

  /**
   * With `sock` registered twice and ready both ways, each vector holds `sock` twice
   * if its interest set names it and is empty otherwise.
   */
  lemma {:induction false} DoubleRegistrationOutcome(sock: Socket, rs: set<int>, ws: set<int>, t: Option<TimeVal>)
    requires 0 <= sock.fd && rs <= {sock.fd} && ws <= {sock.fd}
    ensures
      var fds, m := [sock.fd, sock.fd], map[sock.fd := sock];
      var call := SelectCall(Highest(fds) + 1, rs, ws, t);
      WaitOutcome(SysSelect(call, BothReady(sock)), BothReady(sock), fds, m)
        == Success((if rs == {} then [] else [sock, sock], if ws == {} then [] else [sock, sock]))
  {
    var fd := sock.fd;
    var fds, m := [fd, fd], map[fd := sock];
    var reply := SysSelect(SelectCall(Highest(fds) + 1, rs, ws, t), BothReady(sock));
    assert reply.readfds == rs;
    assert reply.writefds == ws;
    if rs == {} && ws == {} {
      // Nothing watched: `select()` returns 0 and `wait` takes the timeout branch.
      assert reply.n == 0;
    } else {
      assert reply.n > 0;
      RegisteredTwice(sock, rs);
      RegisteredTwice(sock, ws);
    }
  }

  /** Registering a socket twice for READ makes it appear twice in the read vector. */
  method ReadTwiceScenario(sock: Socket, microsecs: LongLong) returns (r: Result<ReadyLists, SocketException>)
    requires sock.fd >= 0
    ensures r == Success(([sock, sock], []))
  {
    var fd := sock.fd;
    var s := new SelectSet();
    s.AddFd(sock, READ);
    s.AddFd(sock, READ);
    assert s.filedescriptors == [fd, fd] && s.fdsockmap == map[fd := sock];
    assert s.readset == {fd} && s.writeset == {};
    DoubleRegistrationOutcome(sock, {fd}, {}, WaitTimeout(microsecs));
    r := s.Wait(microsecs, BothReady(sock));
  }

  /**
   * Registering a socket once for READ and once for WRITE visits its descriptor twice,
   * so when it is ready both ways it appears twice in each vector.
   */
  method ReadWriteScenario(sock: Socket, microsecs: LongLong) returns (r: Result<ReadyLists, SocketException>)
    requires sock.fd >= 0
    ensures r == Success(([sock, sock], [sock, sock]))
  {
    var fd := sock.fd;
    var s := new SelectSet();
    s.AddFd(sock, READ);
    s.AddFd(sock, WRITE);
    assert s.filedescriptors == [fd, fd] && s.fdsockmap == map[fd := sock];
    assert s.readset == {fd} && s.writeset == {fd};
    DoubleRegistrationOutcome(sock, {fd}, {fd}, WaitTimeout(microsecs));
    r := s.Wait(microsecs, BothReady(sock));
  }

  /**
   * With nothing registered, `select()` is called with bound 1 and empty sets, and a
   * successful call yields two empty vectors whatever the kernel reports.
   */
  method EmptyWaitScenario(microsecs: LongLong, k: Readiness) returns (r: Result<ReadyLists, SocketException>)
    requires microsecs != 0 && k.failure.None?
    ensures r == Success(([], []))
  {
    var s := new SelectSet();
    r := s.Wait(microsecs, k);
  }

  /**
   * Once both interest sets are empty, a successful `wait` watches nothing: it returns two
   * empty vectors and leaves the sets empty, so every later successful `wait` does too.
   */
  method WaitAfterTimeout(s: SelectSet, microsecs: LongLong, k: Readiness) returns (r: Result<ReadyLists, SocketException>)
    requires s.Valid() && s.readset == {} && s.writeset == {}
    requires microsecs != 0 && k.failure.None?
    modifies s
    ensures s.Valid() && s.readset == {} && s.writeset == {}
    ensures r == Success(([], []))
  {
    r := s.Wait(microsecs, k);
  }

  /**
   * A `wait` that times out empties both interest sets, because `select()` overwrote them;
   * the next `wait` on the same set then watches nothing and returns two empty vectors
   * whatever its timeout and whatever the kernel reports, unless `select()` fails.
   */
  method TimedOutWaitScenario(sock: Socket, microsecs: LongLong, later: LongLong, k: Readiness)
    returns (first: Result<ReadyLists, SocketException>, second: Result<ReadyLists, SocketException>)
    requires sock.fd >= 0 && microsecs != 0 && later != 0 && k.failure.None?
    ensures first == Success(([], []))
    ensures second == Success(([], []))
  {
    var s := new SelectSet();
    s.AddFd(sock, READ);
    s.AddFd(sock, WRITE);
    first := s.Wait(microsecs, Readiness({}, {}, None));
    second := WaitAfterTimeout(s, later, k);
  }
}
