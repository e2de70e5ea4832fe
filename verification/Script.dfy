/** The script machine of kyk_script.c as a list-stack interpreter. */
module Script {
  import opened Bytes

  const OP_PUSHDATA0_START: byte := 0x01
  const OP_PUSHDATA0_END: byte := 0x4b
  const OP_DUP: byte := 0x76
  const OP_EQUALVERIFY: byte := 0x88
  const OP_HASH160: byte := 0xa9
  const OP_CHECKSIG: byte := 0xac

  const KYK_SC_STACK_BUF_SIZE: nat := 20
  const TX_BUF_SIZE: nat := 2000
  const DER_SIG_SIZE: nat := 100

  type Digest20 = s: seq<byte> | |s| == 20 witness seq(20, _ => 0)

  /** Hash160 and the signature check stay uninterpreted; `tx` is the transaction copy
      that OP_CHECKSIG signs. */
  datatype Env = Env(
    hash160: seq<byte> -> Digest20,
    verify: (seq<byte>, seq<byte>, seq<byte>) -> int,
    tx: seq<byte>)

  type Stack = seq<seq<byte>>

  /** How a run ends. `drops` counts the times two items were taken off without freeing
      them. Stuck: the source would leave one of its buffers. */
  datatype Outcome =
    | Done(st: Stack, drops: nat)
    | Failed(drops: nat)
    | BadOpcode(st: Stack, drops: nat)
    | Stuck

  predicate IsScNaConst(opcode: byte) {
    OP_PUSHDATA0_START <= opcode <= OP_PUSHDATA0_END
  }

  /** The arguments OP_CHECKSIG hands to the signature check say yes. */
  predicate SigChecks(env: Env, sig: seq<byte>, pubkey: seq<byte>)
    requires sig != []
  {
    env.verify(env.tx + LE(4, sig[|sig| - 1]), sig[..|sig| - 1], pubkey) >= 1
  }

  /** The buffers of OP_CHECKSIG hold what it copies into them. */
  predicate SigFits(env: Env, sig: seq<byte>) {
    sig != [] && |sig| - 1 <= DER_SIG_SIZE && |env.tx| + 4 <= TX_BUF_SIZE
  }

  /** Which call that is: on the transaction followed by the last byte of the signature and three
      zero bytes, and on the signature without that byte. */
  lemma SigChecksIs(env: Env, sig: seq<byte>, pubkey: seq<byte>)
    requires sig != []
    ensures SigChecks(env, sig, pubkey) <==>
      env.verify(env.tx + [sig[|sig| - 1], 0, 0, 0], sig[..|sig| - 1], pubkey) >= 1
  {
    LEBytes4(sig[|sig| - 1]);
  }

  /** The limits in numbers: pushes take 1 to 75 bytes, signatures up to 101 bytes and
      transactions up to 1996 fit the buffers. */
  lemma Limits(env: Env, sig: seq<byte>, opcode: byte)
    ensures IsScNaConst(opcode) <==> 1 <= opcode <= 75
    ensures SigFits(env, sig) <==> 1 <= |sig| <= 101 && |env.tx| <= 1996
  {
  }

  /** Where the walk over a script goes from the opcode at pc: past the bytes it pushes. */
  function Next(sc: seq<byte>, pc: nat): (n: nat)
    requires pc < |sc|
    ensures n > pc
  {
    if IsScNaConst(sc[pc]) then pc + 1 + sc[pc] else pc + 1
  }

  datatype StepResult = Go(pc: nat, st: Stack, drops: nat) | Halt(o: Outcome)

  /** One turn of the loop: `mem` is the memory from the script's first byte on. The top
      of the stack is its last item. */
  function Step(env: Env, mem: seq<byte>, pc: nat, st: Stack, drops: nat): (r: StepResult)
    requires pc < |mem|
    ensures r.Go? ==> r.pc == Next(mem, pc)
    ensures r.Halt? ==> !r.o.Done?
  {
    var op, n := mem[pc], |st|;
    if IsScNaConst(op) then
      if pc + 1 + op > |mem| || n >= KYK_SC_STACK_BUF_SIZE then Halt(Stuck)
      else Go(pc + 1 + op, st + [mem[pc + 1..pc + 1 + op]], drops)
    else if op == OP_DUP then
      if n == 0 || n >= KYK_SC_STACK_BUF_SIZE then Halt(Stuck)
      else Go(pc + 1, st + [st[n - 1]], drops)
    else if op == OP_HASH160 then
      if n == 0 then Halt(Stuck)
      else Go(pc + 1, st[..n - 1] + [env.hash160(st[n - 1])], drops)
    else if op == OP_EQUALVERIFY then
      if n < 2 then Halt(Stuck)
      else if st[n - 1] == st[n - 2] then Go(pc + 1, st[..n - 2], drops + 1)
      else Halt(Failed(drops))
    else if op == OP_CHECKSIG then
      if n < 2 || !SigFits(env, st[n - 2]) then Halt(Stuck)
      else if SigChecks(env, st[n - 2], st[n - 1]) then Go(pc + 1, st[..n - 2], drops + 1)
      else Halt(Failed(drops + 1))
    else Halt(BadOpcode(st, drops))
  }

  /** The run from offset pc on of the script of `len` bytes. */
  function Run(env: Env, mem: seq<byte>, len: nat, pc: nat, st: Stack, drops: nat): Outcome
    requires len <= |mem|
    decreases len - pc
  {
    if pc >= len then Done(st, drops)
    else
      match Step(env, mem, pc, st, drops)
      case Go(pc', st', drops') => Run(env, mem, len, pc', st', drops')
      case Halt(o) => o
  }

  /** The outcome of kyk_run_sc on a whole script. */
  function RunScript(env: Env, sc: seq<byte>): Outcome {
    Run(env, sc, |sc|, 0, [], 0)
  }

  // ---------- safety from the opcodes alone ----------

  /** Starting d deep, the depth computed from the opcodes alone stays within the stack
      and no push reaches past the end. */
  predicate DepthSafe(sc: seq<byte>, pc: nat, d: nat)
    decreases |sc| - pc
  {
    if pc >= |sc| then true
    else
      var op := sc[pc];
      if IsScNaConst(op) then
        pc + 1 + op <= |sc| && d < KYK_SC_STACK_BUF_SIZE && DepthSafe(sc, pc + 1 + op, d + 1)
      else if op == OP_DUP then 1 <= d < KYK_SC_STACK_BUF_SIZE && DepthSafe(sc, pc + 1, d + 1)
      else if op == OP_HASH160 then 1 <= d && DepthSafe(sc, pc + 1, d)
      else if op == OP_EQUALVERIFY || op == OP_CHECKSIG then 2 <= d && DepthSafe(sc, pc + 1, d - 2)
      else true
  }

  /** Items as pushes and hashes make them. */
  predicate ItemsFit(st: Stack) {
    forall i :: 0 <= i < |st| ==> 1 <= |st[i]| <= OP_PUSHDATA0_END
  }

  /** A depth-safe script never leaves the stack or the buffers, whatever the hashes and
      signature checks say. */
  lemma {:induction false} DepthSafeNotStuck(env: Env, sc: seq<byte>, pc: nat, st: Stack, drops: nat)
    requires DepthSafe(sc, pc, |st|) && ItemsFit(st) && |env.tx| + 4 <= TX_BUF_SIZE
    ensures Run(env, sc, |sc|, pc, st, drops) != Stuck
    decreases |sc| - pc
  {
    if pc < |sc| {
      var r := Step(env, sc, pc, st, drops);
      if r.Go? {
        DepthSafeNotStuck(env, sc, r.pc, r.st, r.drops);
      }
    }
  }

  // ---------- composition ----------

  /** Walking the script push by push ends on its last byte. */
  predicate EndsExactly(sc: seq<byte>, pc: nat)
    requires pc <= |sc|
    decreases |sc| - pc
  {
    pc == |sc| || (Next(sc, pc) <= |sc| && EndsExactly(sc, Next(sc, pc)))
  }

  /** A step inside the second of two scripts is a step of that script. */
  lemma StepShifted(env: Env, a: seq<byte>, b: seq<byte>, pc: nat, st: Stack, drops: nat)
    requires pc < |b|
    ensures Step(env, a + b, |a| + pc, st, drops) ==
      match Step(env, b, pc, st, drops)
      case Go(_, st', drops') => Go(|a| + Next(b, pc), st', drops')
      case Halt(o) => Halt(o)
  {
    var op := b[pc];
    assert (a + b)[|a| + pc] == op;
    if IsScNaConst(op) && pc + 1 + op <= |b| {
      assert (a + b)[|a| + pc + 1..|a| + pc + 1 + op] == b[pc + 1..pc + 1 + op];
    }
  }

  /** A step inside the first, if its push ends there. */
  lemma StepInFirst(env: Env, a: seq<byte>, b: seq<byte>, pc: nat, st: Stack, drops: nat)
    requires pc < |a| && Next(a, pc) <= |a|
    ensures Step(env, a + b, pc, st, drops) == Step(env, a, pc, st, drops)
  {
    var op := a[pc];
    assert (a + b)[pc] == op;
    if IsScNaConst(op) {
      assert (a + b)[pc + 1..pc + 1 + op] == a[pc + 1..pc + 1 + op];
    }
  }

  /** A run inside the second of two scripts is a run of that script. */
  lemma {:induction false} RunInSecond(env: Env, a: seq<byte>, b: seq<byte>, pc: nat, st: Stack, drops: nat)
    ensures Run(env, a + b, |a + b|, |a| + pc, st, drops) == Run(env, b, |b|, pc, st, drops)
    decreases |b| - pc
  {
    if pc < |b| {
      StepShifted(env, a, b, pc, st, drops);
      var r := Step(env, b, pc, st, drops);
      if r.Go? {
        RunInSecond(env, a, b, r.pc, r.st, r.drops);
      }
    }
  }

  /** A second script run from the stack the first one left, if it ran to its end. */
  function Then(o: Outcome, env: Env, sc: seq<byte>): Outcome {
    if o.Done? then Run(env, sc, |sc|, 0, o.st, o.drops) else o
  }

  /** The run comes to a push that reaches past the end of the script, with room for it. */
  predicate ReachesCut(env: Env, sc: seq<byte>, pc: nat, st: Stack, drops: nat)
    decreases |sc| - pc
  {
    pc < |sc| &&
    if Next(sc, pc) > |sc| then |st| < KYK_SC_STACK_BUF_SIZE
    else
      match Step(env, sc, pc, st, drops)
      case Go(pc', st', drops') => ReachesCut(env, sc, pc', st', drops')
      case Halt(_) => false
  }

  /** The first script of two runs as it does alone, and the second takes over its stack. */
  lemma {:induction false} RunThrough(env: Env, a: seq<byte>, b: seq<byte>, pc: nat, st: Stack, drops: nat)
    requires pc <= |a| && !ReachesCut(env, a, pc, st, drops)
    ensures Run(env, a + b, |a + b|, pc, st, drops) == Then(Run(env, a, |a|, pc, st, drops), env, b)
    decreases |a| - pc
  {
    if pc == |a| {
      RunInSecond(env, a, b, 0, st, drops);
    } else if Next(a, pc) <= |a| {
      StepInFirst(env, a, b, pc, st, drops);
      var r := Step(env, a, pc, st, drops);
      if r.Go? {
        RunThrough(env, a, b, r.pc, r.st, r.drops);
      }
    } else {
      assert (a + b)[pc] == a[pc];
    }
  }

  /** A cut push: alone the script is stuck there, and followed by as many bytes as the push
      lacks it ends. */
  lemma {:induction false} CutSwallows(env: Env, a: seq<byte>, pc: nat, st: Stack, drops: nat) returns (b: seq<byte>)
    requires ReachesCut(env, a, pc, st, drops)
    ensures Run(env, a, |a|, pc, st, drops) == Stuck && Run(env, a + b, |a + b|, pc, st, drops).Done?
    decreases |a| - pc
  {
    if Next(a, pc) > |a| {
      b := seq(Next(a, pc) - |a|, _ => 0);
      assert (a + b)[pc] == a[pc] && |a + b| == Next(a, pc);
      assert Run(env, a + b, |a + b|, |a + b|, st + [(a + b)[pc + 1..]], drops).Done?;
    } else {
      var r := Step(env, a, pc, st, drops);
      b := CutSwallows(env, a, r.pc, r.st, r.drops);
      StepInFirst(env, a, b, pc, st, drops);
    }
  }

  /** A scriptSig composes with every scriptPubKey, combined running being scriptPubKey run
      from the stack scriptSig leaves, exactly when its run reaches no cut push. */
  lemma CompositionIff(env: Env, scSig: seq<byte>)
    ensures (forall scPubk :: RunScript(env, scSig + scPubk) == Then(RunScript(env, scSig), env, scPubk)) <==>
      !ReachesCut(env, scSig, 0, [], 0)
  {
    if ReachesCut(env, scSig, 0, [], 0) {
      var scPubk := CutSwallows(env, scSig, 0, [], 0);
      assert RunScript(env, scSig + scPubk) != Then(RunScript(env, scSig), env, scPubk);
    } else {
      forall scPubk
        ensures RunScript(env, scSig + scPubk) == Then(RunScript(env, scSig), env, scPubk)
      {
        RunThrough(env, scSig, scPubk, 0, [], 0);
      }
    }
  }

  lemma {:induction false} ExactIsNotCut(env: Env, sc: seq<byte>, pc: nat, st: Stack, drops: nat)
    requires pc <= |sc| && EndsExactly(sc, pc)
    ensures !ReachesCut(env, sc, pc, st, drops)
    decreases |sc| - pc
  {
    if pc < |sc| {
      var r := Step(env, sc, pc, st, drops);
      if r.Go? {
        ExactIsNotCut(env, sc, r.pc, r.st, r.drops);
      }
    }
  }

  /** In particular, whatever the hashes and signature checks say, when the walk over
      scriptSig ends on its last byte. */
  lemma Composition(env: Env, scSig: seq<byte>, scPubk: seq<byte>)
    requires EndsExactly(scSig, 0)
    ensures RunScript(env, scSig + scPubk) == Then(RunScript(env, scSig), env, scPubk)
  {
    ExactIsNotCut(env, scSig, 0, [], 0);
    RunThrough(env, scSig, scPubk, 0, [], 0);
  }

  /** A scriptSig that ends inside a push swallows the start of scriptPubKey: here its only
      byte, an opcode that is refused when the script runs by itself. */
  lemma CutPushSwallows(env: Env)
    ensures !EndsExactly([0x01], 0)
    ensures RunScript(env, [0x01] + [0xff]).Done?
    ensures Run(env, [0xff], 1, 0, [], 0).BadOpcode?
  {
    var mem := [0x01] + [0xff];
    assert Run(env, mem, 2, 0, [], 0) == Run(env, mem, 2, 2, [] + [mem[1..2]], 0);
  }

  // ---------- what a run leaves ----------

  /** What an opcode adds to the depth of the stack. */
  function Effect(opcode: byte): int {
    if IsScNaConst(opcode) || opcode == OP_DUP then 1
    else if opcode == OP_EQUALVERIFY || opcode == OP_CHECKSIG then -2
    else 0
  }

  /** The depth at the end, computed from the opcodes alone. */
  function Depth(mem: seq<byte>, len: nat, pc: nat, d: int): int
    requires len <= |mem|
    decreases len - pc
  {
    if pc >= len then d else Depth(mem, len, Next(mem, pc), d + Effect(mem[pc]))
  }

  /** A run that ends leaves as many items as the opcodes alone compute, so the bytes tell
      whether anything is left over. */
  lemma {:induction false} DoneDepth(env: Env, mem: seq<byte>, len: nat, pc: nat, st: Stack, drops: nat)
    requires len <= |mem| && Run(env, mem, len, pc, st, drops).Done?
    ensures |Run(env, mem, len, pc, st, drops).st| == Depth(mem, len, pc, |st|)
    decreases len - pc
  {
    if pc < len {
      var r := Step(env, mem, pc, st, drops);
      DoneDepth(env, mem, len, r.pc, r.st, r.drops);
    }
  }

  /** The stack that the opcodes leave if no check fails: every verifying opcode drops two
      items, whatever they are. Where the stack or the script is too short, nothing more is
      done. */
  function LeftOver(hash160: seq<byte> -> Digest20, mem: seq<byte>, len: nat, pc: nat, st: Stack): Stack
    requires len <= |mem|
    decreases len - pc
  {
    if pc >= len then st
    else
      var op, n := mem[pc], |st|;
      if IsScNaConst(op) then
        if pc + 1 + op > |mem| then st
        else LeftOver(hash160, mem, len, pc + 1 + op, st + [mem[pc + 1..pc + 1 + op]])
      else if op == OP_DUP && n >= 1 then LeftOver(hash160, mem, len, pc + 1, st + [st[n - 1]])
      else if op == OP_HASH160 && n >= 1 then
        LeftOver(hash160, mem, len, pc + 1, st[..n - 1] + [hash160(st[n - 1])])
      else if (op == OP_EQUALVERIFY || op == OP_CHECKSIG) && n >= 2 then
        LeftOver(hash160, mem, len, pc + 1, st[..n - 2])
      else st
  }

  /** A run that ends leaves exactly that stack: the script and the hash alone tell which items
      stay, and the signature checks and the transaction have no part in it. */
  lemma {:induction false} DoneStack(env: Env, mem: seq<byte>, len: nat, pc: nat, st: Stack, drops: nat)
    requires len <= |mem| && Run(env, mem, len, pc, st, drops).Done?
    ensures Run(env, mem, len, pc, st, drops).st == LeftOver(env.hash160, mem, len, pc, st)
    decreases len - pc
  {
    if pc < len {
      var r := Step(env, mem, pc, st, drops);
      DoneStack(env, mem, len, r.pc, r.st, r.drops);
    }
  }

  /** A run succeeds with a false item on top of the stack. */
  lemma FalseOnTop(env: Env)
    ensures RunScript(env, [0x01, 0x00]) == Done([[0x00]], 0)
  {
    PushOne(env, [0x00], [], 0);
    assert [0x01 as byte, 0x00] == [|[0x00 as byte]| as byte] + [0x00];
  }

  // ---------- where a script is cut ----------

  /** The offsets of the opcodes that the walk meets. */
  function Cuts(sc: seq<byte>, pc: nat): seq<nat>
    decreases |sc| - pc
  {
    if pc >= |sc| then [] else [pc] + Cuts(sc, Next(sc, pc))
  }

  /** The offsets of the opcodes that a run executes. */
  function Executed(env: Env, sc: seq<byte>, pc: nat, st: Stack, drops: nat): seq<nat>
    decreases |sc| - pc
  {
    if pc >= |sc| then []
    else
      [pc] + match Step(env, sc, pc, st, drops)
             case Go(pc', st', drops') => Executed(env, sc, pc', st', drops')
             case Halt(_) => []
  }

  /** A run executes the opcodes of the walk in order, up to the place where it stops, and
      all of them if it ends. */
  lemma {:induction false} ExecutedArePrefix(env: Env, sc: seq<byte>, pc: nat, st: Stack, drops: nat)
    ensures Executed(env, sc, pc, st, drops) <= Cuts(sc, pc)
    ensures Run(env, sc, |sc|, pc, st, drops).Done? ==> Executed(env, sc, pc, st, drops) == Cuts(sc, pc)
    decreases |sc| - pc
  {
    if pc < |sc| {
      var r := Step(env, sc, pc, st, drops);
      if r.Go? {
        ExecutedArePrefix(env, sc, r.pc, r.st, r.drops);
      }
    }
  }

  // ---------- pay to public key hash ----------

  /** What build_p2pkh_sc_pubk writes; the length is cut to a byte. */
  function P2pkh(pkh: seq<byte>): seq<byte> {
    [OP_DUP, OP_HASH160, |pkh| % 256] + pkh + [OP_EQUALVERIFY, OP_CHECKSIG]
  }

  lemma P2pkhBytes(pkh: Digest20)
    ensures P2pkh(pkh) == [0x76, 0xa9, 0x14] + pkh + [0x88, 0xac]
  {
  }

  predicate Pushable(s: seq<byte>) {
    1 <= |s| <= OP_PUSHDATA0_END
  }

  /** A script that pushes a signature and a public key. */
  function PushTwo(sig: seq<byte>, pubkey: seq<byte>): seq<byte>
    requires Pushable(sig) && Pushable(pubkey)
  {
    [|sig|] + sig + ([|pubkey|] + pubkey)
  }

  lemma PushOne(env: Env, s: seq<byte>, st: Stack, drops: nat)
    requires Pushable(s) && |st| < KYK_SC_STACK_BUF_SIZE
    ensures var sc := [|s| as byte] + s;
      EndsExactly(sc, 0) && Run(env, sc, |sc|, 0, st, drops) == Done(st + [s], drops)
  {
    var sc := [|s| as byte] + s;
    assert sc[1..1 + |s|] == s;
    assert EndsExactly(sc, 1 + |s|);
    assert Run(env, sc, |sc|, 1 + |s|, st + [s], drops) == Done(st + [s], drops);
  }

  lemma {:induction false} EndsExactlyShift(a: seq<byte>, b: seq<byte>, pc: nat)
    requires pc <= |b| && EndsExactly(b, pc)
    ensures EndsExactly(a + b, |a| + pc)
    decreases |b| - pc
  {
    if pc < |b| {
      assert (a + b)[|a| + pc] == b[pc];
      EndsExactlyShift(a, b, Next(b, pc));
    }
  }

  lemma {:induction false} EndsExactlyConcat(a: seq<byte>, b: seq<byte>, pc: nat)
    requires pc <= |a| && EndsExactly(a, pc) && EndsExactly(b, 0)
    ensures EndsExactly(a + b, pc)
    decreases |a| - pc
  {
    if pc == |a| {
      EndsExactlyShift(a, b, 0);
    } else {
      assert (a + b)[pc] == a[pc];
      EndsExactlyConcat(a, b, Next(a, pc));
    }
  }

  lemma PushTwoRuns(env: Env, sig: seq<byte>, pubkey: seq<byte>)
    requires Pushable(sig) && Pushable(pubkey)
    ensures EndsExactly(PushTwo(sig, pubkey), 0)
    ensures RunScript(env, PushTwo(sig, pubkey)) == Done([sig, pubkey], 0)
  {
    var a, b := [|sig| as byte] + sig, [|pubkey| as byte] + pubkey;
    PushOne(env, sig, [], 0);
    PushOne(env, pubkey, [sig], 0);
    EndsExactlyConcat(a, b, 0);
    Composition(env, a, b);
    assert [] + [sig] == [sig] && [sig] + [pubkey] == [sig, pubkey];
  }

  /** The locking script, run on a signature and a public key. */
  lemma P2pkhRuns(env: Env, pkh: Digest20, sig: seq<byte>, pubkey: seq<byte>)
    requires SigFits(env, sig)
    ensures var sc := P2pkh(pkh);
      Run(env, sc, |sc|, 0, [sig, pubkey], 0) ==
        if env.hash160(pubkey) != pkh then Failed(0)
        else if SigChecks(env, sig, pubkey) then Done([], 2)
        else Failed(2)
  {
    var sc := P2pkh(pkh);
    var h := env.hash160(pubkey);
    assert sc[0] == OP_DUP && sc[1] == OP_HASH160 && sc[2] == 20 && sc[23] == OP_EQUALVERIFY && sc[24] == OP_CHECKSIG;
    assert sc[3..23] == pkh;
    var s1, s2, s3 := [sig, pubkey, pubkey], [sig, pubkey, h], [sig, pubkey, h, pkh];
    assert [sig, pubkey] + [pubkey] == s1 && s1[..2] + [h] == s2 && s2 + [pkh] == s3;
    assert s3[..2] == [sig, pubkey] && [sig, pubkey][..0] == [];
    calc {
      Run(env, sc, 25, 0, [sig, pubkey], 0);
      Run(env, sc, 25, 1, s1, 0);
      Run(env, sc, 25, 2, s2, 0);
      Run(env, sc, 25, 23, s3, 0);
      if h != pkh then Failed(0) else Run(env, sc, 25, 24, [sig, pubkey], 1);
    }
  }

  /** The two scripts together, from the empty stack. */
  lemma P2pkhDecides(env: Env, pkh: Digest20, sig: seq<byte>, pubkey: seq<byte>)
    requires Pushable(sig) && Pushable(pubkey) && |env.tx| + 4 <= TX_BUF_SIZE
    ensures var o := RunScript(env, PushTwo(sig, pubkey) + P2pkh(pkh));
      && (o.Done? <==> env.hash160(pubkey) == pkh && SigChecks(env, sig, pubkey))
      && (o.Done? ==> o == Done([], 2))
      && !o.Stuck? && !o.BadOpcode?
  {
    PushTwoRuns(env, sig, pubkey);
    Composition(env, PushTwo(sig, pubkey), P2pkh(pkh));
    P2pkhRuns(env, pkh, sig, pubkey);
  }

  /** Pay to public key hash accepts exactly the right key with a good signature, and a run
      that ends has used up its stack: script and call in bytes. */
  lemma P2pkhAccepts(env: Env, pkh: Digest20, sig: seq<byte>, pubkey: seq<byte>)
    requires 1 <= |sig| <= 75 && 1 <= |pubkey| <= 75 && |env.tx| <= 1996
    ensures
      var sc := [|sig|] + sig + ([|pubkey|] + pubkey) + ([0x76, 0xa9, 0x14] + pkh + [0x88, 0xac]);
      var o := RunScript(env, sc);
      && (o.Done? <==>
        env.hash160(pubkey) == pkh
        && env.verify(env.tx + [sig[|sig| - 1], 0, 0, 0], sig[..|sig| - 1], pubkey) >= 1)
      && (o.Done? ==> o == Done([], 2))
      && !o.Stuck? && !o.BadOpcode?
  {
    P2pkhBytes(pkh);
    SigChecksIs(env, sig, pubkey);
    P2pkhDecides(env, pkh, sig, pubkey);
  }

  // ---------- the depth of the stack ----------

  /** n pushes of one byte. */
  function Pushes(n: nat): seq<byte> {
    if n == 0 then [] else [0x01, 0x00] + Pushes(n - 1)
  }

  lemma {:induction false} PushesRun(env: Env, n: nat, st: Stack, drops: nat)
    requires |st| <= 20
    ensures var o := Run(env, Pushes(n), |Pushes(n)|, 0, st, drops);
      if |st| + n <= 20 then o.Done? && |o.st| == |st| + n else o.Stuck?
  {
    if n > 0 {
      var a: seq<byte>, b := [0x01, 0x00], Pushes(n - 1);
      assert Pushes(n) == a + b && (a + b)[0] == 0x01;
      if |st| < 20 {
        PushOne(env, [0x00], st, drops);
        assert a == [|[0x00 as byte]| as byte] + [0x00];
        ExactIsNotCut(env, a, 0, st, drops);
        RunThrough(env, a, b, 0, st, drops);
        PushesRun(env, n - 1, st + [[0x00]], drops);
      }
    }
  }

  /** The stack holds twenty items: a script of n pushes runs to its end if and only if n is at
      most 20, and leaves the stack otherwise. */
  lemma TwentyPushes(env: Env, n: nat)
    ensures RunScript(env, Pushes(n)).Done? <==> n <= 20
    ensures RunScript(env, Pushes(n)).Stuck? <==> n > 20
  {
    PushesRun(env, n, [], 0);
  }
}
