/**
 The two buffers of aof.c, updated in place: the list of blocks that collects what is fed while
 a child rewrites the log, and aof_buf, which flushAppendOnlyFile writes to the file.
 */
module AofBuffers {
  import opened Resp

  function Concat(blocks: seq<Bytes>): (s: Bytes) {
    if blocks == [] then [] else blocks[0] + Concat(blocks[1..])
  }

  lemma {:induction false} ConcatAppend(a: seq<Bytes>, b: seq<Bytes>)
    ensures Concat(a + b) == Concat(a) + Concat(b)
  {
    if a == [] {
      assert a + b == b;
    } else {
      assert (a + b)[1..] == a[1..] + b;
      ConcatAppend(a[1..], b);
    }
  }

  lemma ConcatLast(blocks: seq<Bytes>, b: Bytes)
    ensures Concat(blocks + [b]) == Concat(blocks) + b
  {
    ConcatAppend(blocks, [b]);
    assert Concat([b]) == b;
  }

  lemma ConcatGrowLast(blocks: seq<Bytes>, more: Bytes)
    requires blocks != []
    ensures var last := |blocks| - 1;
      Concat(blocks[last := blocks[last] + more]) == Concat(blocks) + more
  {
    hide Concat;
    var last := |blocks| - 1;
    var init := blocks[..last];
    assert blocks == init + [blocks[last]];
    assert blocks[last := blocks[last] + more] == init + [blocks[last] + more];
    ConcatLast(init, blocks[last]);
    ConcatLast(init, blocks[last] + more);
  }

  lemma ConcatHead(blocks: seq<Bytes>, n: nat)
    requires blocks != [] && n <= |blocks[0]|
    ensures Concat(blocks) == blocks[0][..n] + Concat(blocks[0 := blocks[0][n..]])
    ensures blocks[0] == [] ==> Concat(blocks[1..]) == Concat(blocks)
  {
    assert blocks[0 := blocks[0][n..]][1..] == blocks[1..];
    assert blocks[0] == blocks[0][..n] + blocks[0][n..];
  }

  function Sum(xs: seq<int>): int {
    if xs == [] then 0 else Sum(xs[..|xs| - 1]) + xs[|xs| - 1]
  }

  /** The writes all take something, and together no more than the first block has. */
  ghost predicate InFirst(blocks: seq<Bytes>, writes: seq<int>) {
    blocks != [] && (forall i :: 0 <= i < |writes| ==> writes[i] > 0) && Sum(writes) <= |blocks[0]|
  }

  lemma SumNone(xs: seq<int>)
    ensures Sum(xs[..0]) == 0
  {
  }

  lemma {:induction false} SumStep(xs: seq<int>, w: nat)
    requires w < |xs|
    ensures Sum(xs[..w + 1]) == Sum(xs[..w]) + xs[w]
    ensures (forall i :: 0 <= i < |xs| ==> xs[i] > 0) ==> Sum(xs[..w + 1]) <= Sum(xs)
    ensures (forall i :: 0 <= i < |xs| ==> xs[i] > 0) && w + 1 < |xs| ==> Sum(xs[..w + 1]) < Sum(xs)
    decreases |xs| - w
  {
    assert xs[..w + 1][..w] == xs[..w];
    if w + 1 < |xs| {
      SumStep(xs, w + 1);
    } else {
      assert xs[..w + 1] == xs;
    }
  }

  /** The rewrite buffer: blocks of `size` bytes, of which the used part is kept. All but the first and the last
      are full. */
  class RewriteBuffer {
    const size: nat
    var blocks: seq<Bytes>

    ghost predicate Valid()
      reads this
    {
      && size > 0 && (forall i :: 0 <= i < |blocks| ==> |blocks[i]| <= size)
      && forall i :: 0 < i < |blocks| - 1 ==> |blocks[i]| == size
    }

    ghost function Contents(): (s: Bytes)
      reads this
    {
      Concat(blocks)
    }

    /** aofRewriteBufferReset */
    constructor (size: nat)
      requires size > 0
      ensures Valid() && Contents() == [] && this.size == size
    {
      this.size := size;
      blocks := [];
    }

    /** aofRewriteBufferAppend */
    method Append(data: Bytes)
      requires Valid()
      modifies this
      ensures Valid() && Contents() == old(Contents()) + data
    {
      hide Concat;
      var s := data;
      while s != []
        invariant Valid() && Contents() + s == old(Contents()) + data
        decreases |s|, if blocks == [] then 1 else if |blocks[|blocks| - 1]| == size then 1 else 0
      {
        ghost var before, s0 := blocks, s;
        if blocks != [] {
          var last := |blocks| - 1;
          var free := size - |blocks[last]|;
          var thislen := if free < |s| then free else |s|;
          if thislen > 0 {
            ConcatGrowLast(blocks, s[..thislen]);
            blocks := blocks[last := blocks[last] + s[..thislen]];
            s := s[thislen..];
            assert s0 == s0[..thislen] + s;
          }
        }
        if s != [] {
          ConcatLast(blocks, []);
          blocks := blocks + [[]];
        }
      }
    }

    /** aofChildWriteDiffData: send what the pipe takes. `writes` are the results of the calls of
        write(2), as long as they last. */
    method WriteDiffData(stop: bool, writes: seq<int>) returns (sent: Bytes, w: nat)
      requires Valid()
      modifies this
      ensures Valid() && sent + Contents() == old(Contents())
      ensures stop ==> sent == [] && blocks == old(blocks)
      ensures w <= |writes| && w <= |sent| && forall i :: 0 <= i < w ==> writes[i] > 0
      ensures stop || Contents() == [] || w == |writes| || writes[w] <= 0
      ensures !stop && InFirst(old(blocks), writes) ==> w == |writes| && |sent| == Sum(writes)
    {
      hide Concat, Sum;
      sent := [];
      w := 0;
      SumNone(writes);
      while true
        invariant Valid() && w <= |writes|
        invariant sent + Contents() == old(Contents())
        invariant stop ==> sent == [] && blocks == old(blocks)
        invariant w <= |sent| && forall i :: 0 <= i < w ==> writes[i] > 0
        invariant InFirst(old(blocks), writes) ==> |sent| == Sum(writes[..w])
        invariant InFirst(old(blocks), writes) && w < |writes| ==>
          blocks != [] && |blocks[0]| == |old(blocks)[0]| - |sent| && writes[w] > 0
        decreases |blocks|, |writes| - w
      {
        if w < |writes| {
          SumStep(writes, w);
        } else {
          assert writes[..w] == writes;
        }
        if stop || blocks == [] {
          ConcatNothing();
          return;
        }
        if blocks[0] != [] {
          if w == |writes| || writes[w] <= 0 {
            return;
          }
          var nwritten := if writes[w] <= |blocks[0]| then writes[w] else |blocks[0]|;
          w := w + 1;
          ConcatHead(blocks, nwritten);
          sent := sent + blocks[0][..nwritten];
          blocks := blocks[0 := blocks[0][nwritten..]];
        }
        if blocks[0] == [] {
          ConcatHead(blocks, 0);
          blocks := blocks[1..];
        }
      }
    }

    /** aofRewriteBufferWrite: all of it or an error. `writes` as above, for the file. */
    method WriteAll(writes: seq<int>) returns (ok: bool, written: Bytes, i: nat)
      requires Valid()
      ensures i <= |blocks| && written == Concat(blocks[..i])
      ensures ok ==> i == |blocks| && written == Contents()
      ensures !ok ==> i < |blocks| && blocks[i] != []
      ensures !ok ==> Filled(blocks[..i]) >= |writes| || writes[Filled(blocks[..i])] != |blocks[i]|
    {
      hide Concat;
      written := [];
      i := 0;
      var w := 0;
      ConcatNothing();
      while i < |blocks|
        invariant i <= |blocks| && w <= |writes| && w == Filled(blocks[..i])
        invariant written == Concat(blocks[..i])
      {
        assert blocks[..i + 1] == blocks[..i] + [blocks[i]];
        ConcatLast(blocks[..i], blocks[i]);
        if blocks[i] != [] {
          if w == |writes| || writes[w] != |blocks[i]| {
            return false, written, i;
          }
          w := w + 1;
          written := written + blocks[i];
        }
        i := i + 1;
      }
      assert blocks[..i] == blocks;
      return true, written, i;
    }
  }

  lemma ConcatNothing()
    ensures Concat([]) == []
  {
  }

  /** How many blocks hold something. */
  function Filled(blocks: seq<Bytes>): nat {
    if blocks == [] then 0
    else Filled(blocks[..|blocks| - 1]) + if blocks[|blocks| - 1] == [] then 0 else 1
  }

  // ---------------------------------------------------------------- flushing

  datatype Policy = Always | EverySec | No

  /** The file, aof_buf and the bookkeeping of flushAppendOnlyFile. */
  class Writer {
    var file: Bytes
    var aofBuf: Bytes
    var currentSize: nat
    var postponedStart: int
    var lastWriteOk: bool

    ghost predicate Valid()
      reads this
    {
      currentSize == |file|
    }

    /** Everything fed so far. */
    ghost function Fed(): (s: Bytes)
      reads this
    {
      file + aofBuf
    }

    constructor ()
      ensures Valid() && Fed() == []
    {
      file, aofBuf, currentSize, postponedStart, lastWriteOk := [], [], 0, 0, true;
    }

    method Feed(data: Bytes)
      requires Valid()
      modifies this`aofBuf
      ensures Valid() && Fed() == old(Fed()) + data && aofBuf == old(aofBuf) + data
    {
      aofBuf := aofBuf + data;
    }

    /** flushAppendOnlyFile. `result` is what write(2) returns, -1 or the bytes written; `truncateOk`
        says whether ftruncate(2) succeeds. A write is postponed while an fsync is running, for less than two
        seconds from the first time. The process exits on an error under the policy Always. */
    method Flush(force: bool, policy: Policy, syncInProgress: bool, now: int, result: int, truncateOk: bool)
      returns (exited: bool, ghost n: nat)
      requires Valid() && -1 <= result <= |aofBuf|
      modifies this
      ensures var postponed := policy == EverySec && syncInProgress && !force
                && (old(postponedStart) == 0 || now - old(postponedStart) < 2);
        && (old(aofBuf) == [] ==> !exited && n == 0 && postponedStart == old(postponedStart) && lastWriteOk == old(lastWriteOk))
        && (old(aofBuf) != [] && postponed ==>
              && !exited && n == 0 && lastWriteOk == old(lastWriteOk)
              && postponedStart == if old(postponedStart) == 0 then now else old(postponedStart))
        && (old(aofBuf) != [] && !postponed ==>
              && postponedStart == 0
              && (exited <==> policy == Always && result < |old(aofBuf)|)
              && (!exited ==> (lastWriteOk <==> result == |old(aofBuf)|))
              && n == if result == |old(aofBuf)| || (result > 0 && !truncateOk) then result else 0)
      ensures n <= |old(aofBuf)| && file == old(file) + old(aofBuf)[..n]
      ensures !exited ==> Valid() && Fed() == old(Fed()) && aofBuf == old(aofBuf)[n..]
    {
      n := 0;
      exited := false;
      if aofBuf == [] {
        return;
      }
      var sync := policy == EverySec && syncInProgress;
      if policy == EverySec && !force {
        if sync {
          if postponedStart == 0 {
            postponedStart := now;
            return;
          } else if now - postponedStart < 2 {
            return;
          }
        }
      }
      var nwritten := result;
      if nwritten > 0 {
        file := file + aofBuf[..nwritten];
      }
      postponedStart := 0;
      if nwritten != |aofBuf| {
        if nwritten != -1 {
          if truncateOk {
            file := file[..currentSize];
            nwritten := -1;
          }
        }
        n := if nwritten > 0 then nwritten else 0;
        if policy == Always {
          exited := true;
          return;
        }
        lastWriteOk := false;
        if nwritten > 0 {
          currentSize := currentSize + nwritten;
          aofBuf := aofBuf[nwritten..];
        }
        return;
      }
      n := nwritten;
      lastWriteOk := true;
      currentSize := currentSize + nwritten;
      aofBuf := [];
    }
  }
}
