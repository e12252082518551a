/** pr_sigaction: sigaction() executed inside a stopped subject process
    through Psyscall, or locally when there is no subject. */
module PrSigaction {
  import opened Descriptors

  /** SYS_sigaction and ENOSYS as the Solaris headers define them. */
  const SYS_sigaction: int := 98
  const ENOSYS: int := 89

  /** pr_dmodel of the subject's status: PR_MODEL_UNKNOWN, PR_MODEL_ILP32 or PR_MODEL_LP64. */
  datatype DataModel = Unknown | ILP32 | LP64

  /** A subject process handle; only the data model that Pstatus reports matters here. */
  datatype Subject = Subject(dmodel: DataModel)

  /** How the controller itself was built: whether _LP64 is defined, and
      sizeof (struct sigaction) and sizeof (struct sigaction32) in that build. */
  datatype Build = Build(lp64: bool, sigactionSize: ByteSize, sigaction32Size: ByteSize)

  /** The bytes of one sigaction structure, in whichever layout it has. */
  type Image = seq<bv8>

  /** What Psyscall is given: the system call number, the argument count, the
      descriptors, and the contents it copies into the subject, that is, the
      bytes of every by-reference INPUT buffer. */
  datatype SyscallRequest = SyscallRequest(sysnum: int, nargs: int, args: seq<ArgDes>, inputs: map<Buffer, Image>)

  /** What Psyscall reports: its error code (0 on success), sys_rval1, and the
      bytes it copied back out of the subject into the OUTPUT buffer, if any. */
  datatype SyscallReply = SyscallReply(error: int, rval1: int, copiedOut: Option<Image>)

  /** What the controller's own sigaction() does: its return value, the errno it
      leaves (None when it leaves errno alone) and the contents of *oact afterwards. */
  datatype LocalResult = LocalResult(ret: int, errno: Option<int>, oactImage: Image)

  /** The code pr_sigaction calls but that is not part of this model. */
  datatype Env = Env(
    localSigaction: (int, Option<Image>, Option<Image>) -> LocalResult,
    psyscall: SyscallRequest -> SyscallReply,
    nTo32: Image -> Image,
    n32ToN: Image -> Image)

  /** The calls pr_sigaction makes into code outside it, in the order made. */
  datatype Call =
    | LocalSigaction(sig: int, act: Option<Image>, oact: Option<Image>)
    | SigactionNTo32(src: Image)
    | Psyscall(req: SyscallRequest)
    | Sigaction32ToN(src: Image)

  datatype CallKind = KLocal | KNTo32 | KSyscall | K32ToN

  function Kind(c: Call): CallKind
  {
    match c
    case LocalSigaction(_, _, _) => KLocal
    case SigactionNTo32(_) => KNTo32
    case Psyscall(_) => KSyscall
    case Sigaction32ToN(_) => K32ToN
  }

  /** How many calls of kind k a trace holds. */
  function CountOf(calls: seq<Call>, k: CallKind): nat
  {
    if calls == [] then 0
    else (if Kind(calls[0]) == k then 1 else 0) + CountOf(calls[1..], k)
  }

  lemma {:induction false} CountOfAppend(a: seq<Call>, b: seq<Call>)
    ensures forall k :: CountOf(a + b, k) == CountOf(a, k) + CountOf(b, k)
  {
    if a != [] {
      CountOfAppend(a[1..], b);
      assert (a + b)[1..] == a[1..] + b;
    } else {
      assert a + b == b;
    }
  }

  /** Recording one more call adds one to the count of its kind only. */
  lemma CountOfRecord(a: seq<Call>, c: Call)
    ensures forall k :: CountOf(a + [c], k) == CountOf(a, k) + (if Kind(c) == k then 1 else 0)
  {
    CountOfAppend(a, [c]);
    assert [c][1..] == [];
    forall k ensures CountOf([c], k) == (if Kind(c) == k then 1 else 0) {
      assert CountOf([c], k) == (if Kind(c) == k then 1 else 0) + CountOf([c][1..], k);
    }
  }

  /** Whether the wrapper talks to the subject through 32-bit shadow
      structures: only an LP64 controller facing an ILP32 subject does. */
  predicate Shadowed(build: Build, dmodel: DataModel)
  {
    build.lp64 && dmodel == ILP32
  }

  /** The size a by-reference sigaction descriptor carries: the 32-bit size when
      it names a shadow, the controller's native size otherwise. */
  function SubjectSigactionSize(build: Build, dmodel: DataModel): ByteSize
  {
    if Shadowed(build, dmodel) then build.sigaction32Size else build.sigactionSize
  }

  /** The descriptor for an optional structure argument: a null pointer is
      passed by value as 0; otherwise the structure, or its shadow, by reference. */
  function StructArg(present: bool, dir: InOut, shadowed: bool, caller: Buffer, shadow: Buffer, build: Build): ArgDes
  {
    if !present then ArgDes(0, None, ByVal, Input, 0)
    else if shadowed then ArgDes(0, Some(shadow), ByRef, dir, build.sigaction32Size)
    else ArgDes(0, Some(caller), ByRef, dir, build.sigactionSize)
  }

  /** The three descriptors pr_sigaction passes to Psyscall, in order: sig, act, oact. */
  function ArgList(sig: int, act: Option<Image>, hasOact: bool, build: Build, dmodel: DataModel): (args: seq<ArgDes>)
    ensures |args| == 3
    ensures forall i | 0 <= i < |args| :: WellFormed(args[i])
    ensures args[0] == ArgDes(sig, None, ByVal, Input, 0)
    ensures args[1].mode == ByRef <==> act.Some?
    ensures args[2].mode == ByRef <==> hasOact
    ensures args[1].inout == Input
    ensures args[2].inout == (if hasOact then Output else Input)
    ensures args[1].value == 0 && args[2].value == 0
    ensures forall i | 1 <= i < 3 && args[i].mode == ByRef ::
              args[i].size == SubjectSigactionSize(build, dmodel)
    ensures act.Some? ==>
              args[1].obj == Some(if Shadowed(build, dmodel) then ShadowAct32 else CallerAct)
    ensures hasOact ==>
              args[2].obj == Some(if Shadowed(build, dmodel) then ShadowOact32 else CallerOact)
  {
    var shadowed := Shadowed(build, dmodel);
    [ArgDes(sig, None, ByVal, Input, 0),
     StructArg(act.Some?, Input, shadowed, CallerAct, ShadowAct32, build),
     StructArg(hasOact, Output, shadowed, CallerOact, ShadowOact32, build)]
  }

  /** The contents Psyscall copies into the subject: act itself, or its 32-bit
      translation when the subject is ILP32 under an LP64 controller. */
  function InputImages(act: Option<Image>, build: Build, dmodel: DataModel, nTo32: Image -> Image): map<Buffer, Image>
  {
    if act.None? then map[]
    else if Shadowed(build, dmodel) then map[ShadowAct32 := nTo32(act.value)]
    else map[CallerAct := act.value]
  }

  /** The one request pr_sigaction makes of Psyscall for a subject. */
  function RequestFor(sig: int, act: Option<Image>, hasOact: bool, build: Build, dmodel: DataModel,
                      nTo32: Image -> Image): (req: SyscallRequest)
    ensures req.sysnum == SYS_sigaction && req.nargs == |req.args| == 3
    ensures req.args == ArgList(sig, act, hasOact, build, dmodel)
    ensures forall b :: b in req.inputs <==>
              exists i | 0 <= i < |req.args| ::
                req.args[i].mode == ByRef && req.args[i].inout == Input && req.args[i].obj == Some(b)
    ensures CallerAct in req.inputs ==> req.inputs[CallerAct] == act.value
    ensures ShadowAct32 in req.inputs ==> req.inputs[ShadowAct32] == nTo32(act.value)
  {
    var req := SyscallRequest(SYS_sigaction, 3, ArgList(sig, act, hasOact, build, dmodel),
                              InputImages(act, build, dmodel, nTo32));
    assert act.Some? ==> req.args[1].mode == ByRef && req.args[1].inout == Input;
    req
  }

  /** The errno a failed Psyscall leaves: its own code when positive, ENOSYS
      when it reports failure without a usable code. */
  function ErrnoFor(error: int): (e: int)
    requires error != 0
    ensures e > 0
    ensures error > 0 ==> e == error
    ensures error < 0 ==> e == ENOSYS
  {
    if error > 0 then error else ENOSYS
  }
  /** The int that pr_sigaction's return statement yields from sys_rval1, a
      greg_t (a long on LP64): the two's-complement value modulo 2^32. */
  function ToInt32(x: int): (r: int)
    ensures -0x8000_0000 <= r < 0x8000_0000
    ensures -0x8000_0000 <= x < 0x8000_0000 ==> r == x
    ensures (x - r) % 0x1_0000_0000 == 0
  {
    var m := x % 0x1_0000_0000;
    if m < 0x8000_0000 then m else m - 0x1_0000_0000
  }

  /** What Psyscall reports for the one request pr_sigaction makes of it. */
  function Reply(env: Env, sig: int, act: Option<Image>, hasOact: bool, build: Build, dmodel: DataModel): SyscallReply
  {
    env.psyscall(RequestFor(sig, act, hasOact, build, dmodel, env.nTo32))
  }

  /** Fills argd[0..3] field by field through the advancing index adp, as
      pr_sigaction fills its local argd array. */
  method FillArgs(argd: array<ArgDes>, sig: int, act: Option<Image>, hasOact: bool, build: Build, dmodel: DataModel)
    requires argd.Length == 3
    modifies argd
    ensures argd[..] == ArgList(sig, act, hasOact, build, dmodel)
  {
    var adp := 0;  // sig argument
    argd[adp] := argd[adp].(value := sig);
    argd[adp] := argd[adp].(obj := None);
    argd[adp] := argd[adp].(mode := ByVal);
    argd[adp] := argd[adp].(inout := Input);
    argd[adp] := argd[adp].(size := 0);

    adp := adp + 1;  // act argument
    argd[adp] := argd[adp].(value := 0);
    if act.None? {
      argd[adp] := argd[adp].(mode := ByVal);
      argd[adp] := argd[adp].(inout := Input);
      argd[adp] := argd[adp].(obj := None);
      argd[adp] := argd[adp].(size := 0);
    } else {
      argd[adp] := argd[adp].(mode := ByRef);
      argd[adp] := argd[adp].(inout := Input);
      if build.lp64 && dmodel == ILP32 {
        argd[adp] := argd[adp].(obj := Some(ShadowAct32));
        argd[adp] := argd[adp].(size := build.sigaction32Size);
      } else {
        argd[adp] := argd[adp].(obj := Some(CallerAct));
        argd[adp] := argd[adp].(size := build.sigactionSize);
      }
    }

    adp := adp + 1;  // oact argument
    argd[adp] := argd[adp].(value := 0);
    if !hasOact {
      argd[adp] := argd[adp].(mode := ByVal);
      argd[adp] := argd[adp].(inout := Input);
      argd[adp] := argd[adp].(obj := None);
      argd[adp] := argd[adp].(size := 0);
    } else {
      argd[adp] := argd[adp].(mode := ByRef);
      argd[adp] := argd[adp].(inout := Output);
      if build.lp64 && dmodel == ILP32 {
        argd[adp] := argd[adp].(obj := Some(ShadowOact32));
        argd[adp] := argd[adp].(size := build.sigaction32Size);
      } else {
        argd[adp] := argd[adp].(obj := Some(CallerOact));
        argd[adp] := argd[adp].(size := build.sigactionSize);
      }
    }
  }

  /** pr_sigaction(Pr, sig, act, oact). A null pointer is None; a non-null act or
      oact is Some of the structure's bytes. Returns the C return value, the
      errno it assigns (None when it assigns none), the caller's oact after the
      call, and the calls it made into code outside it. */
  method PrSigaction(env: Env, pr: Option<Subject>, build: Build, sig: int, act: Option<Image>, oact: Option<Image>)
    returns (ret: int, errno: Option<int>, oactAfter: Option<Image>, calls: seq<Call>)
    // The pointer itself never changes: *oact may be rewritten, a null oact stays null.
    ensures oactAfter.None? <==> oact.None?
    // No subject: exactly the local sigaction(), and nothing else.
    ensures pr.None? ==>
              var r := env.localSigaction(sig, act, oact);
              calls == [LocalSigaction(sig, act, oact)] &&
              ret == r.ret && errno == r.errno &&
              (oact.Some? ==> oactAfter == Some(r.oactImage))
    ensures pr.None? <==> CountOf(calls, KLocal) == 1
    ensures pr.None? <==> CountOf(calls, KSyscall) == 0
    // A subject: Psyscall is called once, with SYS_sigaction and the three descriptors.
    ensures pr.Some? ==>
              CountOf(calls, KLocal) == 0 && CountOf(calls, KSyscall) == 1 &&
              Psyscall(RequestFor(sig, act, oact.Some?, build, pr.value.dmodel, env.nTo32)) in calls
    // act is translated to the 32-bit layout exactly when it is passed through a shadow.
    ensures CountOf(calls, KNTo32) ==
              (if pr.Some? && act.Some? && Shadowed(build, pr.value.dmodel) then 1 else 0)
    ensures pr.Some? && act.Some? && Shadowed(build, pr.value.dmodel) ==>
              calls[0] == SigactionNTo32(act.value)
    // Failure: -1, errno normalised, no translation back, a shadowed oact untouched.
    ensures pr.Some? && Reply(env, sig, act, oact.Some?, build, pr.value.dmodel).error != 0 ==>
              ret == -1 &&
              errno == Some(ErrnoFor(Reply(env, sig, act, oact.Some?, build, pr.value.dmodel).error)) &&
              CountOf(calls, K32ToN) == 0 &&
              (Shadowed(build, pr.value.dmodel) ==> oactAfter == oact)
    // Success: sys_rval1 as an int (unchanged whenever it fits), errno not assigned, translation back exactly when shadowed.
    ensures pr.Some? && Reply(env, sig, act, oact.Some?, build, pr.value.dmodel).error == 0 ==>
              ret == ToInt32(Reply(env, sig, act, oact.Some?, build, pr.value.dmodel).rval1) &&
              errno == None &&
              CountOf(calls, K32ToN) == (if oact.Some? && Shadowed(build, pr.value.dmodel) then 1 else 0)
    // An oact passed straight through receives whatever Psyscall copied back into it.
    ensures pr.Some? && oact.Some? && !Shadowed(build, pr.value.dmodel) ==>
              oactAfter == Some(Reply(env, sig, act, oact.Some?, build, pr.value.dmodel).copiedOut.GetOr(oact.value))
    // A shadowed oact receives, on success, the native translation of the shadow,
    // which holds what Psyscall copied back.
    ensures pr.Some? && oact.Some? && Shadowed(build, pr.value.dmodel) &&
            Reply(env, sig, act, oact.Some?, build, pr.value.dmodel).error == 0 ==>
              calls[|calls| - 1].Sigaction32ToN? &&
              oactAfter == Some(env.n32ToN(calls[|calls| - 1].src)) &&
              (Reply(env, sig, act, oact.Some?, build, pr.value.dmodel).copiedOut.Some? ==>
                 calls[|calls| - 1].src == Reply(env, sig, act, oact.Some?, build, pr.value.dmodel).copiedOut.value)
  {
    if pr.None? {
      // no subject process
      var r := env.localSigaction(sig, act, oact);
      calls := [LocalSigaction(sig, act, oact)];
      ret, errno := r.ret, r.errno;
      oactAfter := if oact.Some? then Some(r.oactImage) else None;
      return;
    }
    var dmodel := pr.value.dmodel;
    var argd := new ArgDes[3];
    var inputs: map<Buffer, Image> := map[];
    var oact32: Image := *;  // uninitialised stack storage
    calls := [];

    if act.Some? && build.lp64 && dmodel == ILP32 {
      var act32 := env.nTo32(act.value);
      CountOfRecord(calls, SigactionNTo32(act.value));
      calls := calls + [SigactionNTo32(act.value)];
      inputs := map[ShadowAct32 := act32];
    } else if act.Some? {
      inputs := map[CallerAct := act.value];
    }
    FillArgs(argd, sig, act, oact.Some?, build, dmodel);

    var req := SyscallRequest(SYS_sigaction, 3, argd[..], inputs);
    assert req == RequestFor(sig, act, oact.Some?, build, dmodel, env.nTo32);
    var reply := env.psyscall(req);
    CountOfRecord(calls, Psyscall(req));
    calls := calls + [Psyscall(req)];

    // Psyscall copies the subject's OUTPUT buffer back into the object the
    // OUTPUT descriptor names.
    oactAfter := oact;
    if argd[2].mode == ByRef && reply.copiedOut.Some? {
      if argd[2].obj == Some(ShadowOact32) {
        oact32 := reply.copiedOut.value;
      } else {
        oactAfter := reply.copiedOut;
      }
    }

    if reply.error != 0 {
      errno := Some(ErrnoFor(reply.error));
      ret := -1;
      return;
    }
    if oact.Some? && build.lp64 && dmodel == ILP32 {
      oactAfter := Some(env.n32ToN(oact32));
      CountOfRecord(calls, Sigaction32ToN(oact32));
      calls := calls + [Sigaction32ToN(oact32)];
    }
    errno := None;
    ret := ToInt32(reply.rval1);
  }
}
