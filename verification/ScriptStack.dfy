/** The pointer stack of kyk_script.c with the blocks it allocates, and kyk_run_sc on it. */
module ScriptStack {
  import opened Bytes
  import opened KykUtils
  import opened BeejPack
  import opened Script

  /** A stack slot: a length and a pointer to an allocated block, here the block's number. */
  datatype Item = Item(len: nat, val: nat)

  /** The `top` pointer: NULL before the first push, else a slot; slot -1 is `buf - 1`,
      where popping the last item leaves it. */
  datatype Top = Null | Slot(i: int)

  /** The checked call, from copies of the transaction and the signature in local buffers. */
  method CheckSig(env: Env, sig: seq<byte>, pubkey: seq<byte>) returns (ret: int)
    requires SigFits(env, sig)
    ensures ret >= 1 <==> env.verify(env.tx + [sig[|sig| - 1], 0, 0, 0], sig[..|sig| - 1], pubkey) >= 1
  {
    hide LE;
    LEBytes4(sig[|sig| - 1]);
    var htype := sig[|sig| - 1];
    var txBuf := new byte[TX_BUF_SIZE];
    Memcpy(txBuf, 0, env.tx);
    var size := PackL(txBuf, |env.tx|, htype);
    assert txBuf[..|env.tx| + 4] == env.tx + LE(4, htype);
    var derSig := new byte[DER_SIG_SIZE];
    Memcpy(derSig, 0, sig[..|sig| - 1]);
    assert derSig[..|sig| - 1] == sig[..|sig| - 1];
    ret := env.verify(txBuf[..|env.tx| + size], derSig[..|sig| - 1], pubkey);
  }

  class ScStack {
    var hgt: nat
    var top: Top
    const buf: array<Item>
    /** The live blocks of the C heap, by number; a block read or freed must be live. */
    var heap: map<nat, seq<byte>>
    var mallocs: nat
    var frees: nat
    /** Live blocks that no slot below hgt points to any more. */
    ghost var lost: set<nat>

    ghost predicate Valid()
      reads this, buf
    {
      && buf.Length == KYK_SC_STACK_BUF_SIZE && hgt <= buf.Length
      && (top == Null ==> hgt == 0)
      && (top.Slot? ==> top.i == hgt - 1)
      && (forall i :: 0 <= i < hgt ==> buf[i].val in heap && buf[i].val !in lost)
      && (forall i :: 0 <= i < hgt ==> |heap[buf[i].val]| == buf[i].len)
      && (forall i, j :: 0 <= i < j < hgt ==> buf[i].val != buf[j].val)
      && (forall b :: b in heap ==> b < mallocs)
      && lost <= heap.Keys
      && mallocs == frees + hgt + |lost|
    }

    /** The items, bottom first. */
    ghost function Contents(): (st: Stack)
      requires Valid()
      reads this, buf
      ensures |st| == hgt
    {
      seq(hgt, i requires 0 <= i < hgt && Valid() reads this, buf => heap[buf[i].val])
    }

    constructor Init()
      ensures Valid() && fresh(buf) && Contents() == [] && lost == {}
      ensures mallocs == 0 && frees == 0
    {
      hgt, top := 0, Null;
      heap, mallocs, frees := map[], 0, 0;
      lost := {};
      buf := new Item[KYK_SC_STACK_BUF_SIZE](i => Item(0, 0));
    }

    /** `malloc` followed by `memcpy`. */
    method Malloc(s: seq<byte>) returns (val: nat)
      modifies this`heap, this`mallocs
      ensures val == old(mallocs) && mallocs == old(mallocs) + 1
      ensures heap == old(heap)[val := s]
    {
      val := mallocs;
      heap := heap[val := s];
      mallocs := mallocs + 1;
    }

    /** `free`: the block must be live, so a second free of it is ruled out. */
    method Free(val: nat)
      requires val in heap
      modifies this`heap, this`frees
      ensures heap == old(heap) - {val} && frees == old(frees) + 1
    {
      heap := heap - {val};
      frees := frees + 1;
    }

    method Push(s: seq<byte>)
      requires Valid() && hgt < KYK_SC_STACK_BUF_SIZE
      modifies this, buf
      ensures Valid() && Contents() == old(Contents()) + [s]
      ensures lost == old(lost) && frees == old(frees) && mallocs == old(mallocs) + 1
    {
      if top == Null {
        top := Slot(0);
      } else {
        top := Slot(top.i + 1);
      }
      var val := Malloc(s);
      buf[top.i] := Item(|s|, val);
      hgt := hgt + 1;
    }

    /** Takes the top item off; its block stays live until it is freed. */
    method PopStack() returns (item: Item)
      requires Valid() && hgt >= 1
      modifies this`top, this`hgt, this`lost
      ensures Valid() && Contents() == old(Contents()[..hgt - 1])
      ensures item.val in heap && heap[item.val] == old(Contents()[hgt - 1])
      ensures item.val !in old(lost) && lost == old(lost) + {item.val}
    {
      item := buf[top.i];
      top := Slot(top.i - 1);
      hgt := hgt - 1;
      lost := lost + {item.val};
    }

    method FreeItem(item: Item)
      requires Valid() && item.val in lost
      modifies this`heap, this`frees, this`lost
      ensures Valid() && Contents() == old(Contents())
      ensures lost == old(lost) - {item.val} && frees == old(frees) + 1
    {
      Free(item.val);
      lost := lost - {item.val};
    }

    method OpDup()
      requires Valid() && 1 <= hgt < KYK_SC_STACK_BUF_SIZE
      modifies this, buf
      ensures Valid() && Contents() == old(Contents() + [Contents()[hgt - 1]])
      ensures lost == old(lost) && frees == old(frees) && mallocs == old(mallocs) + 1
    {
      var item := buf[top.i];
      Push(heap[item.val]);
    }

    method OpHash160(env: Env)
      requires Valid() && hgt >= 1
      modifies this, buf
      ensures Valid() && Contents() == old(Contents()[..hgt - 1] + [env.hash160(Contents()[hgt - 1])])
      ensures lost == old(lost) && frees == old(frees) + 1 && mallocs == old(mallocs) + 1
    {
      var item := PopStack();
      var digest := env.hash160(heap[item.val]);
      FreeItem(item);
      Push(digest);
    }

    /** Drops the two top items without freeing their blocks. */
    method DropTwo()
      requires Valid() && hgt >= 2
      modifies this`top, this`hgt, this`lost
      ensures Valid() && Contents() == old(Contents()[..hgt - 2])
      ensures |lost| == old(|lost|) + 2
    {
      ghost var a, b := buf[top.i].val, buf[top.i - 1].val;
      top := Slot(top.i - 1);
      top := Slot(top.i - 1);
      hgt := hgt - 2;
      assert a != b && a !in lost && b !in lost;
      lost := lost + {a} + {b};
    }

    /** Equal top items are dropped; different ones stay. */
    method OpEqVerify() returns (ret: int)
      requires Valid() && hgt >= 2
      modifies this`top, this`hgt, this`lost
      ensures Valid()
      ensures ret == 1 <==> old(Contents()[hgt - 1] == Contents()[hgt - 2])
      ensures ret == 0 || ret == 1
      ensures ret == 1 ==> Contents() == old(Contents()[..hgt - 2]) && |lost| == old(|lost|) + 2
      ensures ret == 0 ==> Contents() == old(Contents()) && lost == old(lost)
    {
      ret := 0;
      var item1, item2 := buf[top.i], buf[top.i - 1];
      assert heap[item1.val] == Contents()[hgt - 1] && heap[item2.val] == Contents()[hgt - 2];
      if item1.len == item2.len && heap[item1.val] == heap[item2.val] {
        ret := 1;
        DropTwo();
      }
    }

    /** The signature without its hash type byte is checked over the transaction followed
        by that byte as four bytes; both items are dropped whatever the answer. */
    method OpChecksig(env: Env) returns (ret: int)
      requires Valid() && hgt >= 2 && SigFits(env, Contents()[hgt - 2])
      modifies this`top, this`hgt, this`lost
      ensures Valid() && Contents() == old(Contents()[..hgt - 2]) && |lost| == old(|lost|) + 2
      ensures ret >= 1 <==> old(SigChecks(env, Contents()[hgt - 2], Contents()[hgt - 1]))
      ensures var sig, pubkey := old(Contents()[hgt - 2]), old(Contents()[hgt - 1]);
        ret >= 1 <==> env.verify(env.tx + [sig[|sig| - 1], 0, 0, 0], sig[..|sig| - 1], pubkey) >= 1
    {
      var pubkey, sig := heap[buf[top.i].val], heap[buf[top.i - 1].val];
      assert pubkey == Contents()[hgt - 1] && sig == Contents()[hgt - 2];
      ret := CheckSig(env, sig, pubkey);
      SigChecksIs(env, sig, pubkey);
      DropTwo();
    }

    /** Frees every block on the stack from the top down. */
    method FreeScStack()
      requires Valid()
      modifies this`top, this`heap, this`frees
      ensures heap.Keys == old(heap.Keys) - set i | 0 <= i < hgt :: buf[i].val
      ensures frees == old(frees) + hgt && mallocs == frees + |lost|
    {
      var i := 0;
      while i < hgt
        invariant 0 <= i <= hgt
        invariant i < hgt ==> top == Slot(hgt - 1 - i)
        invariant frees == old(frees) + i
        invariant heap.Keys == old(heap.Keys) - set k | hgt - i <= k < hgt :: buf[k].val
      {
        assert (set k | hgt - (i + 1) <= k < hgt :: buf[k].val) ==
               (set k | hgt - i <= k < hgt :: buf[k].val) + {buf[hgt - 1 - i].val};
        Free(buf[top.i].val);
        top := Slot(top.i - 1);
        i := i + 1;
      }
      assert (set k | hgt - i <= k < hgt :: buf[k].val) == (set k | 0 <= k < hgt :: buf[k].val);
    }
  }

  /** Blocks that were allocated and neither freed nor left on the stack come in pairs. */
  ghost predicate Accounted(stk: ScStack, drops: nat)
    reads stk, stk.buf
  {
    stk.Valid() && stk.mallocs == stk.frees + stk.hgt + 2 * drops
  }

  /** What a run that does not get stuck does at an opcode that is not a push. */
  lemma OpRuns(env: Env, mem: seq<byte>, len: nat, pc: nat, st: Stack, drops: nat)
    requires pc < len <= |mem| && !IsScNaConst(mem[pc]) && Run(env, mem, len, pc, st, drops) != Stuck
    ensures var op, n, r := mem[pc], |st|, Run(env, mem, len, pc, st, drops);
      && (op == OP_DUP ==>
        1 <= n < KYK_SC_STACK_BUF_SIZE && r == Run(env, mem, len, pc + 1, st + [st[n - 1]], drops))
      && (op == OP_HASH160 ==>
        1 <= n && r == Run(env, mem, len, pc + 1, st[..n - 1] + [env.hash160(st[n - 1])], drops))
      && (op == OP_EQUALVERIFY || op == OP_CHECKSIG ==> 2 <= n)
      && (op == OP_EQUALVERIFY && st[n - 1] == st[n - 2] ==> r == Run(env, mem, len, pc + 1, st[..n - 2], drops + 1))
      && (op == OP_EQUALVERIFY && st[n - 1] != st[n - 2] ==> r == Failed(drops))
      && (op == OP_CHECKSIG ==> SigFits(env, st[n - 2]))
      && (op == OP_CHECKSIG && SigChecks(env, st[n - 2], st[n - 1]) ==>
        r == Run(env, mem, len, pc + 1, st[..n - 2], drops + 1))
      && (op == OP_CHECKSIG && !SigChecks(env, st[n - 2], st[n - 1]) ==> r == Failed(drops + 1))
      && (op !in {OP_DUP, OP_HASH160, OP_EQUALVERIFY, OP_CHECKSIG} ==> r == BadOpcode(st, drops))
  {
  }

  datatype Status = Running | Refused | Unknown

  /** One opcode that is not a push: either the machine goes on as the list-stack run does,
      or it stops as that run does. */
  method ExecOp(env: Env, stk: ScStack, opcode: byte, ghost mem: seq<byte>, ghost len: nat, ghost pc: nat,
                ghost drops: nat) returns (status: Status, ghost drops': nat)
    requires pc < len <= |mem| && mem[pc] == opcode && !IsScNaConst(opcode)
    requires Accounted(stk, drops) && Run(env, mem, len, pc, stk.Contents(), drops) != Stuck
    modifies stk, stk.buf
    ensures Accounted(stk, drops')
    ensures old(Run(env, mem, len, pc, stk.Contents(), drops)) ==
      match status
      case Running => Run(env, mem, len, pc + 1, stk.Contents(), drops')
      case Refused => Failed(drops')
      case Unknown => BadOpcode(stk.Contents(), drops')
  {
    hide SigFits, SigChecks, Run;
    OpRuns(env, mem, len, pc, stk.Contents(), drops);
    status, drops' := Running, drops;
    match opcode {
      case 0x76 => stk.OpDup();
      case 0xa9 => stk.OpHash160(env);
      case 0x88 =>
        var ok := stk.OpEqVerify();
        if ok < 1 {
          status := Refused;
        } else {
          drops' := drops + 1;
        }
      case 0xac =>
        var ok := stk.OpChecksig(env);
        drops' := drops + 1;
        if ok < 1 {
          status := Refused;
        }
      case _ => status := Unknown;
    }
  }

  /** One push of the `opcode` bytes behind the opcode. */
  method ExecPush(env: Env, stk: ScStack, opcode: byte, s: seq<byte>, ghost mem: seq<byte>, ghost len: nat,
                  ghost pc: nat, ghost drops: nat)
    requires pc < len <= |mem| && mem[pc] == opcode && IsScNaConst(opcode)
    requires Accounted(stk, drops) && Run(env, mem, len, pc, stk.Contents(), drops) != Stuck
    requires s == mem[pc + 1..pc + 1 + opcode]
    modifies stk, stk.buf
    ensures Accounted(stk, drops)
    ensures old(Run(env, mem, len, pc, stk.Contents(), drops)) ==
      Run(env, mem, len, pc + 1 + opcode, stk.Contents(), drops)
  {
    stk.Push(s);
  }

  lemma PushInside(env: Env, mem: seq<byte>, len: nat, pc: nat, st: Stack, drops: nat)
    requires pc < len <= |mem| && IsScNaConst(mem[pc]) && Run(env, mem, len, pc, st, drops) != Stuck
    ensures pc + 1 + mem[pc] <= |mem|
  {
  }

  lemma RunEnds(env: Env, mem: seq<byte>, len: nat, pc: nat, st: Stack, drops: nat)
    requires len <= |mem| && len <= pc
    ensures Run(env, mem, len, pc, st, drops) == Done(st, drops)
  {
  }

  /** Runs the script of scLen bytes at the start of `sc`. It returns 1 exactly when the
      list-stack run reaches the end. At every loop head, and at the end, the blocks
      allocated but not freed are those on the stack and two for each dropped pair. */
  method KykRunSc(env: Env, sc: array<byte>, scLen: nat) returns (ret: int, stk: ScStack)
    requires scLen <= sc.Length && Run(env, sc[..], scLen, 0, [], 0) != Stuck
    ensures var o := Run(env, sc[..], scLen, 0, [], 0);
      && (ret == 1 <==> o.Done?) && (ret == 0 <==> !o.Done?)
      && (o.Stuck? || stk.mallocs == stk.frees + 2 * o.drops + (if o.BadOpcode? then |o.st| else 0))
  {
    hide Run;
    stk := new ScStack.Init();
    var count := 0;
    ghost var drops: nat := 0;
    ghost var mem := sc[..];
    ghost var o := Run(env, mem, scLen, 0, [], 0);
    while count < scLen
      invariant fresh(stk) && fresh(stk.buf) && sc[..] == mem && Accounted(stk, drops)
      invariant o == Run(env, mem, scLen, count, stk.Contents(), drops)
      decreases scLen - count
    {
      var opcode := sc[count];
      if IsScNaConst(opcode) {
        PushInside(env, mem, scLen, count, stk.Contents(), drops);
        ExecPush(env, stk, opcode, sc[count + 1..count + 1 + opcode], mem, scLen, count, drops);
        count := count + 1 + opcode;
      } else {
        var status, d := ExecOp(env, stk, opcode, mem, scLen, count, drops);
        drops := d;
        if status == Refused {
          stk.FreeScStack();
          return 0, stk;
        } else if status == Unknown {
          return 0, stk;
        }
        count := count + 1;
      }
    }
    RunEnds(env, mem, scLen, count, stk.Contents(), drops);
    stk.FreeScStack();
    return 1, stk;
  }

  // ---------- building scripts ----------

  method KykCombineSc(sc: array<byte>, scSig: seq<byte>, scPubk: seq<byte>) returns (count: nat)
    requires |scSig| + |scPubk| <= sc.Length
    modifies sc
    ensures count == |scSig| + |scPubk|
    ensures sc[..] == Splice(old(sc[..]), 0, scSig + scPubk)
  {
    var n := KykPackChars(sc, 0, scSig);
    var m := KykPackChars(sc, n, scPubk);
    SpliceSplice(old(sc[..]), 0, scSig, scPubk);
    count := n + m;
  }

  lemma SplicedAt(was: seq<byte>, at: nat, x: seq<byte>)
    requires at + |x| <= |was|
    ensures Splice(was, at, x)[at..at + |x|] == x
  {
  }

  method BuildP2pkhScPubk(sc: array<byte>, at: nat, pkh: seq<byte>) returns (count: nat)
    requires at + |P2pkh(pkh)| <= sc.Length
    modifies sc
    ensures count == |P2pkh(pkh)| && sc[..] == Splice(old(sc[..]), at, P2pkh(pkh))
    ensures sc[at..at + count] == [0x76, 0xa9, |pkh| % 256] + pkh + [0x88, 0xac]
  {
    hide Splice;
    ghost var was := sc[..];
    ghost var head: seq<byte> := [OP_DUP, OP_HASH160, |pkh| % 256];
    Put3(sc, at, OP_DUP, OP_HASH160, |pkh| % 256);
    Memcpy(sc, at + 3, pkh);
    SpliceSplice(was, at, head, pkh);
    Put2(sc, at + 3 + |pkh|, OP_EQUALVERIFY, OP_CHECKSIG);
    SpliceSplice(was, at, head + pkh, [OP_EQUALVERIFY, OP_CHECKSIG]);
    assert P2pkh(pkh) == head + pkh + [OP_EQUALVERIFY, OP_CHECKSIG];
    count := |pkh| + 5;
    SplicedAt(was, at, P2pkh(pkh));
  }
}
