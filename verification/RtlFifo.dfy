/** out_fifo_serializer as the hardware holds it: a ring of words with two pointers and a count,
    refining the abstract contents used by RtlChain. */
module RtlFifo {
  import RtlChain

  function IncPtr(p: nat, depth: nat): nat { if p + 1 == depth then 0 else p + 1 }

  /** Ring slot of the k-th word behind the read pointer. */
  function Slot(rd: nat, k: nat, depth: nat): nat
    requires rd < depth && k <= depth
  {
    if rd + k < depth then rd + k else rd + k - depth
  }

  /** The stored words, oldest first. */
  ghost function Ring(m: seq<int>, rd: nat, count: nat): (s: seq<int>)
    requires rd < |m| && count <= |m|
    ensures |s| == count
  {
    seq(count, k requires 0 <= k < count => m[Slot(rd, k, |m|)])
  }

  lemma RingPop(m: seq<int>, rd: nat, count: nat)
    requires rd < |m| && 1 <= count <= |m|
    ensures Ring(m, rd, count)[0] == m[rd] && IncPtr(rd, |m|) < |m|
    ensures Ring(m, IncPtr(rd, |m|), count - 1) == Ring(m, rd, count)[1..]
    ensures Slot(IncPtr(rd, |m|), count - 1, |m|) == Slot(rd, count, |m|)
  {
  }

  lemma RingPush(m: seq<int>, rd: nat, count: nat, d0: int, d1: int)
    requires rd < |m| && count + 2 <= |m|
    ensures var w0 := Slot(rd, count, |m|);
            var w1 := IncPtr(w0, |m|);
            && w0 < |m| && w1 < |m|
            && Ring(m[w0 := d0][w1 := d1], rd, count + 2) == Ring(m, rd, count) + [d0, d1]
            && IncPtr(w1, |m|) == Slot(rd, count + 2, |m|)
  {
  }

  class OutFifoSerializer {
    const depth: nat
    var mem: array<int>
    var rd: nat
    var wr: nat
    var count: nat
    var yValid: bool
    var yOut: int
    var overflow: bool

    ghost predicate Valid()
      reads this
    {
      && depth >= 2 && mem.Length == depth
      && rd < depth && count <= depth && wr == Slot(rd, count, depth)
    }

    ghost function Contents(): seq<int>
      requires Valid()
      reads this, mem
    {
      Ring(mem[..], rd, count)
    }

    constructor (depth: nat)
      requires depth >= 2
      ensures Valid() && this.depth == depth && fresh(mem)
      ensures Contents() == [] && !yValid && yOut == 0 && !overflow
    {
      this.depth := depth;
      mem := new int[depth];
      rd, wr, count := 0, 0, 0;
      yValid, yOut, overflow := false, 0, false;
    }

    /** One clock edge. Reads use the old registers; the two writes land in free slots. */
    method Clock(en: bool, push: bool, d0: int, d1: int)
      requires Valid()
      modifies this, mem
      ensures Valid() && mem == old(mem)
      ensures Contents() == RtlChain.FifoNext(old(Contents()), en, push, d0, d1, depth)
      ensures yValid == (en && old(Contents()) != [])
      ensures yOut == (if en && old(Contents()) != [] then old(Contents())[0] else old(yOut))
      ensures overflow == (old(overflow) || (push && |old(Contents())| + 2 > depth))
    {
      hide Ring, Slot, IncPtr;
      ghost var words, was := mem[..], Contents();
      var doPop := en && count != 0;
      var pushOk := push && count <= depth - 2;
      var w0 := wr;
      var w1 := IncPtr(w0, depth);
      var w2 := IncPtr(w1, depth);
      yValid := false;
      if doPop {
        RingPop(words, rd, count);
        yOut := mem[rd];
        yValid := true;
      }
      if pushOk {
        RingPush(words, rd, count, d0, d1);
        mem[w0] := d0;
        mem[w1] := d1;
        assert mem[..] == words[w0 := d0][w1 := d1];
        wr := w2;
        count := count + 2;
      } else if push {
        overflow := true;
      }
      if doPop {
        RingPop(mem[..], rd, count);
        rd := IncPtr(rd, depth);
        count := count - 1;
      }
      if was != [] { assert (was + [d0, d1])[1..] == was[1..] + [d0, d1]; }
    }
  }
}
