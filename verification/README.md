# pr_sigaction: sigaction() run inside a subject process

This is a model of `pr_sigaction` from libproc. It makes a stopped subject process (a debuggee) execute `sigaction()` on the controller's behalf. Without a subject handle it calls the controller's own `sigaction()`. With one, it fills three `argdes_t` argument descriptors and hands them to `Psyscall` with `SYS_sigaction`:

- the signal number, by value;
- `act`, by reference as input, when it is non-null;
- `oact`, by reference as output, when it is non-null.

An LP64 controller facing an ILP32 subject passes 32-bit shadow copies (`act32`, `oact32`) instead of the caller's structures. It converts `act` into its shadow before the call. On success it converts `oact32` back into `oact`. A nonzero `Psyscall` error becomes a return value of -1, with `errno` set to the error when it is positive and to `ENOSYS` otherwise.

The model has two modules:

- `Descriptors` (descriptors.dfy): the `argdes_t` record (`ArgDes`), its by-value/by-reference mode, its input/output direction, the buffers a descriptor can name, and the well-formedness predicate `WellFormed`. `WellFormed` requires a by-reference descriptor to name a buffer of nonzero size, and a by-value one to name none and have size 0.
- `PrSigaction` (pr_sigaction.dfy):
  - `ArgList` is the reference definition of the three descriptors.
  - `FillArgs` fills a local `array<ArgDes>` field by field through an advancing index, as the C fills `argd[3]` through `adp`.
  - `RequestFor` is the whole request handed to `Psyscall`.
  - `ErrnoFor` is the error normalisation.
  - `ToInt32` is the narrowing of `sys_rval1` (a `greg_t`, a `long` on LP64) to the `int` the function returns.
  - `PrSigaction` is the wrapper itself.

The code outside the wrapper enters as function-valued fields of `Env`:

- the local `sigaction`;
- `Psyscall`;
- `sigaction_n_to_32`;
- `sigaction_32_to_n`.

The subject's data model, as `Pstatus(Pr)->pr_dmodel` reports it, is a field of `Subject`. `#ifdef _LP64` and the two `sizeof` values are fields of `Build`. The global `errno` becomes an out-parameter: `None` means the wrapper did not assign it. The calls the wrapper makes into that outside code are returned in order as a trace (`calls`). `CountOf` counts the calls of each kind, which is how "exactly once" and "never" are stated.

Memory is modelled through pointer tags. A non-null `act`/`oact` is `Some` of the structure's bytes. A descriptor's object is a `Buffer` tag: the caller's `act` or `oact`, or the shadow `act32` or `oact32`. What `Psyscall` copies into the subject is the request's `inputs` map, which holds the bytes of every by-reference input buffer. What it copies back is the reply's `copiedOut`. The wrapper stores `copiedOut` in whichever buffer the output descriptor names.

`SYS_sigaction` (98) and `ENOSYS` (89) take the values of the Solaris headers. Those headers are not part of this model. The proofs use only the fact that `ENOSYS` is positive.

## Model

| member | source | states |
|---|---|---|
| `PrSigaction.ArgList` | libproc/common/pr_sigaction.c:42-96 | Exactly three descriptors, all well formed. Descriptor 0 is `{sig, NULL, BYVAL, INPUT, 0}`. Descriptor 1 is by reference exactly when `act` is non-null; descriptor 2 is by reference exactly when `oact` is non-null. A null argument gives `{0, NULL, BYVAL, INPUT, 0}`. `act` is INPUT and `oact` is OUTPUT. A by-reference descriptor names the 32-bit shadow with the 32-bit size exactly when the controller is LP64 and the subject ILP32, and otherwise the caller's structure with the native size. |
| `PrSigaction.FillArgs` | libproc/common/pr_sigaction.c:42-96 | Filling `argd[0..3]` field by field through the advancing index leaves the array equal to `ArgList` for the same arguments. |
| `PrSigaction.RequestFor` | libproc/common/pr_sigaction.c:42-98 | The request carries `SYS_sigaction`, argument count 3 and the `ArgList` descriptors. The buffers copied into the subject are exactly those named by by-reference input descriptors. `act` goes through byte-identical when not shadowed, and as `sigaction_n_to_32(act)` when shadowed. |
| `PrSigaction.ErrnoFor` | libproc/common/pr_sigaction.c:100-101 | For a nonzero `Psyscall` error, the errno is always a positive error number: the error itself when positive, `ENOSYS` otherwise. |
| `PrSigaction.ToInt32` | libproc/common/pr_sigaction.c:108 | The `long` to `int` narrowing of `return (rval.sys_rval1)`: the result is a 32-bit signed value, equals the input whenever the input fits, and is congruent to it modulo 2^32. |
| `PrSigaction.PrSigaction` | libproc/common/pr_sigaction.c:26-109 | **No subject:** the result, errno and `*oact` are exactly those of the local `sigaction(sig, act, oact)`, which is the only call made and `Psyscall` is never called. **With a subject:** `Psyscall` is called exactly once with `RequestFor`'s request, and `sigaction_n_to_32` runs once exactly when `act` is shadowed. **On a `Psyscall` error:** returns -1 with errno `ErrnoFor(error)`, never converts back, and leaves a shadowed `oact` untouched. **On success:** returns `sys_rval1` as an `int` (`ToInt32`), which is `sys_rval1` unchanged whenever it fits, and assigns no errno; `sigaction_32_to_n` runs exactly once when `oact` is non-null and shadowed, and zero times otherwise, and `oact` then holds the native translation of what `Psyscall` copied back. An unshadowed `oact` holds what `Psyscall` copied back into it. A null `oact` stays null. |

## Left out

- The internals of `Psyscall`: the trampoline, register setup, copying buffers to and from the subject, and `/proc` communication. They are I/O and process control and are not part of this model. `Psyscall` is a function of the request whose reply is an error code, `sys_rval1` and the bytes copied back into the output buffer. The model assumes `Psyscall` writes only the buffer that the output descriptor names.
- `Pstatus(Pr)->pr_dmodel` is an input, read once. The C reads it up to three times and assumes it does not change during the call.
- The controller's own `sigaction()` is a function from `(sig, act, *oact)` to its return value, its errno and the new `*oact`.
- The layouts of `struct sigaction` and `struct sigaction32`, and the bodies of `sigaction_n_to_32` and `sigaction_32_to_n`, are not part of this model. They are arbitrary functions on bytes. So the model states no round trip between the two layouts. The two `sizeof` values are arbitrary positive sizes.
- The global `errno` is an explicit out-parameter. Nothing else the wrapper does is modelled through ambient state.
- The contents of `oact32` before `Psyscall` writes it are an arbitrary value, as for uninitialised stack storage. If `Psyscall` reports success without copying anything back into a shadowed `oact`, the model says only that `oact` receives the translation of whatever `oact32` held.
- Aliasing between `act` and `oact` is not captured, because both are passed as values.
- A subject that dies or detaches mid-call, and serialisation of callers on one handle, are not expressed in this code.
- On failure the caller's `oact` is left untouched only when it goes through a shadow. Otherwise `Psyscall` writes it directly, and what it writes on failure is up to `Psyscall`.
- The success value `sys_rval1` is passed through without a check that it is non-negative.
- Integers other than the return value are unbounded. This covers `sig`, the `Psyscall` error code, and the values the local `sigaction()` and `Psyscall` report. Only the narrowing of `sys_rval1` to the `int` return value is modelled (`ToInt32`). `sysret_t` is not part of this model. The narrowing assumes `sys_rval1` is a `greg_t` and that the conversion keeps the low 32 bits in two's complement.
