# libsocket `selectset` in Dafny

This project models `libsocket::selectset` from `C++/select.cpp`. The class wraps the POSIX
`select()` call. Callers register sockets for READ or WRITE interest with `add_fd`. `wait`
then asks `select()` which registered descriptors are ready. It returns two vectors of
`socket*`. The first holds the sockets ready for reading and the second those ready for
writing, both in registration order.

The model is one module, `LibSocket` in `select.dfy`. `wrappers.dfy` holds `Option` and `Result`.

- `SelectSet` is a class with the source's five fields: `readset`, `writeset`,
  `filedescriptors`, `fdsockmap` and `set_up` (here `setUp`). `AddFd` and `Wait` update them in
  place. A ghost field, `lastCall`, records the arguments of the last `select()` call.
  `Valid()` is the invariant they preserve:
  - every registered descriptor has a socket in `fdsockmap`, stored under its own descriptor;
  - the interest sets hold only registered descriptors;
  - `setUp` is true exactly when something has been registered.
- `HighestFd` is the running-max loop of `highestfd`. It is proved equal to the function `Highest`.
- `select()` is modelled as an oracle, `SysSelect`. It receives the call's arguments
  (bound, both sets, timeout) and a `Readiness` value, which is what the kernel reports when
  the call returns.
  - On failure it returns -1 and leaves the sets unchanged.
  - Otherwise it keeps, in each set, the descriptors below the bound that are ready, and
    returns how many it kept.
  - Any pair of subsets can be reached by choosing the `Readiness` value.
  - `CanReturn` says which reports a call can come back with. With a NULL timeout `select()`
    blocks until it fails or something watched is ready, so it never returns 0
    (`NullTimeoutNeverTimesOut`). `Wait` requires its report to be one of these.
- `WaitOutcome` is what `wait` returns once `select()` has answered.
  - `n < 0`: a `SocketException` whose message is
    `"selectset::wait(): Error at select(): "` followed by the kernel's error text.
  - `n == 0`: two empty vectors.
  - Otherwise: `ReadyFor` over each post-call set. `ReadyFor` walks `filedescriptors` in
    order and keeps the socket of every descriptor found in the set, once per occurrence.
- `WaitTimeout` is the timeout conversion the code computes at lines 91-101:
  - zero gives a NULL pointer (`None`), meaning block indefinitely;
  - otherwise `tv_sec` is the input rounded toward zero to whole seconds, still counted in
    microseconds, and `tv_usec` is the unreduced input.
  `MicroPart` is C's truncating `%` by 1000000.

Three behaviours of the code are easy to miss; the model keeps them:

- `add_fd` appends to `filedescriptors` on every call, even for a descriptor already there. A
  socket registered twice, or once for READ and once for WRITE, is visited twice by the result
  loop. It can therefore appear twice in one result vector (`ReadyForMultiplicity`,
  `ReadTwiceScenario`, `ReadWriteScenario`).
- `wait` hands the member sets themselves to `select()`, so it overwrites the interest sets.
- The timeout is not normalised: `tv_usec` receives the raw microsecond count
  (`TimeoutNotNormalised`).

## Model

| member | source | states |
|---|---|---|
| `LibSocket.SelectSet.constructor` | C++/select.cpp:58-63 | a new set has empty read and write sets, no registered descriptors, an empty socket map and `set_up` false, and satisfies the invariant |
| `LibSocket.SelectSet.AddFd` | C++/select.cpp:65-83 | READ adds the descriptor to the read set, appends it to the registration list (which grows by exactly one even for a repeat) and maps it to this socket, overwriting any earlier mapping; it sets `set_up` and leaves the write set alone. WRITE does the same with the sets swapped. Any other kind changes nothing. The invariant is preserved |
| `LibSocket.SelectSet.Wait` | C++/select.cpp:85-134 | calls `select()` with bound `highestfd + 1`, the current interest sets and the converted timeout (`lastCall` records these arguments, assuming `select()` sees the `timeval` the code filled in); with `microsecs == 0` (a NULL timeout) `select()` does not return 0, so the timeout branch is not taken; the interest sets become what `select()` left in them; the result is `WaitOutcome` of that reply: the exception with the fixed prefix on `n < 0`, two empty vectors on `n == 0`, and otherwise the order-preserving filters of `filedescriptors` by the two post-call sets, mapped through `fdsockmap`; the registration list, the socket map and `set_up` are unchanged; the invariant is preserved |
| `LibSocket.WaitOutcomeExact` | C++/select.cpp:104-133 | `wait` fails exactly when `select()` fails, with a message starting `"selectset::wait(): Error at select(): "`; on success a socket is in the read (write) vector exactly when it is the mapped socket of a non-negative descriptor that was in the read (write) interest set and that the kernel reports ready; every returned pointer is `fdsockmap[fd]` for a registered `fd` |
| `LibSocket.MicroPart` | C++/select.cpp:97 | C's truncating remainder by 1000000: it has the sign of the input, lies strictly within one second of zero, and leaves a whole number of seconds when subtracted |
| `LibSocket.WaitTimeout` | C++/select.cpp:89-102 | zero gives a NULL timeout. Otherwise `tv_usec` equals the input unreduced; `tv_sec` is a multiple of 1000000 within one second of the input, toward zero, so `0 <= micropart < 1000000` for positive input; both fields fit in `long long` |
| `LibSocket.TimeoutNotNormalised` | C++/select.cpp:97-101 | from one second on, `tv_usec` is at least 1000000, `tv_sec` (a count of seconds to the kernel) is also at least 1000000, and the two fields together denote more time than was asked for |
| `LibSocket.Highest` | C++/select.cpp:138-150 | the running maximum is at least 0, at least every element, and either 0 or an element, so it is 0 for an empty list and the bound passed to `select()` is at least 1 |
| `LibSocket.HighestFd` | C++/select.cpp:138-150 | the loop computes `Highest(v)`: at least 0, at least every element, and either 0 or an element of `v` |
| `LibSocket.NullTimeoutNeverTimesOut` | C++/select.cpp:89-104 | a `select()` call with a NULL timeout that comes back either fails or reports at least one ready descriptor, so its return value is never 0 |
| `LibSocket.CanReturn` | C++/select.cpp:89-104 | the assumption about `select()` with a NULL timeout: it comes back only on failure or with a watched descriptor below the bound ready; with a timeout, any report is possible |
| `LibSocket.SysSelect` | C++/select.cpp:104 | the model of `select()`: the sets it leaves are subsets of those passed in. It fails (negative `n`) exactly when the kernel reports an error, and then the sets are unchanged. Otherwise a descriptor stays exactly when it is ready and below the bound, and `n` is the number of descriptors kept in both sets together, so `n == 0` exactly when both sets are empty |
| `LibSocket.ReadyFor` | C++/select.cpp:124-131 | reference definition of the result loop for one set: walk `filedescriptors` in order and keep `fdsockmap[fd]` for each `fd` in the post-call set, once per occurrence; its properties are `ReadyForAppend`, `ReadyForExact` and `ReadyForMultiplicity` |
| `LibSocket.WaitOutcome` | C++/select.cpp:108-133 | reference definition of `wait`'s three branches after `select()`: the exception with the fixed prefix on `n < 0`, two empty vectors on `n == 0`, otherwise `ReadyFor` of each post-call set; its properties are `WaitOutcomeExact` |
| `LibSocket.ReadyForAppend` | C++/select.cpp:122-131 | the result loop preserves registration order: its output on a concatenation of lists is the concatenation of its outputs |
| `LibSocket.ReadyForExact` | C++/select.cpp:124-131 | a socket is in the loop's vector exactly when its descriptor is registered, is in the post-call set and maps to it |
| `LibSocket.ReadyForMultiplicity` | C++/select.cpp:72-131 | duplicates are kept: the socket of a ready descriptor occurring k times in `filedescriptors` occurs k times in the vector, and a socket whose descriptor is not in the set does not occur at all |
| `LibSocket.RegisteredTwice` | C++/select.cpp:124-131 | the result loop over a descriptor registered twice yields its socket twice if the descriptor is in the post-call set, and nothing otherwise |
| `LibSocket.DoubleRegistrationOutcome` | C++/select.cpp:65-133 | with a descriptor registered twice and reported ready both ways, each result vector holds its socket twice if its interest set names it and is empty otherwise; with both interest sets empty `select()` returns 0 and both vectors are empty |
| `LibSocket.ReadTwiceScenario` | C++/select.cpp:65-134 | registering a socket twice for READ and waiting with any timeout, including 0 (a NULL timeout), while it is ready returns `([sock, sock], [])` |
| `LibSocket.ReadWriteScenario` | C++/select.cpp:65-134 | registering a socket once for READ and once for WRITE and waiting with any timeout, including 0 (a NULL timeout), while it is ready both ways returns `([sock, sock], [sock, sock])` |
| `LibSocket.EmptyWaitScenario` | C++/select.cpp:58-120 | with nothing registered, a `wait` with a non-zero timeout whose `select()` succeeds returns two empty vectors, whatever the kernel reports |
| `LibSocket.TimedOutWaitScenario` | C++/select.cpp:65-120 | a `wait` that times out leaves both interest sets empty, because `select()` overwrote them; the next successful `wait` on the same set, with any non-zero timeout, returns two empty vectors whatever the kernel reports |
| `LibSocket.WaitAfterTimeout` | C++/select.cpp:85-120 | with both interest sets empty, a successful `wait` with a non-zero timeout returns two empty vectors and leaves both sets empty and the invariant intact; since its postcondition restores its precondition, every later successful `wait` returns two empty vectors as well |

## Left out

- The `select()` system call itself is modelled only by its effect on the arguments. Blocking,
  real timing and the meaning of the timeout are left out. The `Readiness` value given to
  `Wait` stands for what the kernel reports when the call returns.
  - A NULL timeout with nothing ready would block forever. The model has no reply for that
    case: `CanReturn` excludes it.
  - How a platform treats the unnormalised `timeval` is also left out: some reject it with
    `EINVAL`, Linux folds the excess microseconds into seconds. In the model either outcome is
    a `Readiness` value, with or without an error.
- `LibSocket.SelectSet.Wait`: the length of a non-NULL timeout does not constrain the reply.
  Whether the kernel reports something ready before it expires is the choice of `Readiness`.
- `errno` and `strerror` are left out. The error text is the `failure` string of the
  `Readiness` value.
- The `socket` class is left out; it is defined elsewhere. A `Socket` here is an object with a
  constant descriptor, which stands for `getfd()`.
- `socket_exception` is reduced to its message. The `__FILE__` and `__LINE__` arguments are
  not modelled.
- Descriptors are unbounded integers. Three C limits are not modelled, and the code checks
  none of them:
  - `FD_SETSIZE`, the most descriptors an `fd_set` can hold;
  - the undefined behaviour of `FD_SET` on a negative descriptor;
  - overflow of `highestfd(...) + 1` at `INT_MAX`.
- `LibSocket.WaitTimeout`: `tv_sec` and `tv_usec` are given the width of `long long`. On a
  platform where `suseconds_t` is 32 bits, assigning the raw count to `tv_usec` would truncate.
  Where `time_t` is 32 bits, the same holds for `secpart` assigned to `tv_sec`. Neither
  truncation is modelled.
- `LibSocket.SelectSet.Wait`: the model assumes `select()` sees the converted `timeval`. The
  code declares `_timeout` inside the `if` block (lines 93-101), so its lifetime has ended
  when `select()` reads it through `timeout` at line 104. That is undefined behaviour, and a
  compiler may drop the stores to it. The model does not capture this; for a non-NULL timeout
  the reply is already unconstrained.
- The lifetime of the borrowed `socket*` pointers and concurrent use of a `selectset` are left
  out; the code does nothing about either.
- `examples++/echo_client_sndto.cpp` is a demonstration program doing UDP I/O and console
  output. It is not part of this model.
