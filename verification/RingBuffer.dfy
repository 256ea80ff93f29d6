/** lib/resume/ringbuffer.go as heap code. The Go slice `buf` is a window data[off..off + len] of a
    backing array: re-slicing keeps the array, append writes into its spare room or moves to a new
    array, and shrinking moves to an array of exactly the new capacity. Each method is proved to
    compute the function of the same name in RingSpec. */
module RingBuffers {
  import opened Wrappers
  import opened RingSpec

  /** A ring with the retained bytes, the grown capacity and the new head is the ring after the write. */
  lemma WriteIs(r: Ring, r': Ring, p: seq<byte>)
    requires r.Valid() && r'.cap == GrownCap(r, |p|) && r'.minCap == r.minCap && r'.maxCap == r.maxCap
    requires |r.buf| <= r'.cap && r'.buf == Retained(r.buf, p, r'.cap) && r'.head == r.head + |p|
    ensures r' == RingSpec.Write(r, p) && r'.Valid()
  {
  }

  class RingBuffer {
    var data: array<byte>
    var off: nat
    var len: nat
    var cap: int
    var minCap: int
    var maxCap: int
    var head: int

    ghost predicate Valid()
      reads this, data
    {
      off + len <= data.Length && View().Valid()
    }

    ghost function View(): Ring
      requires off + len <= data.Length
      reads this, data
    {
      Ring(data[off..off + len], cap, minCap, maxCap, head)
    }

    constructor Fixed(capacity: int)
      ensures Valid() && fresh(data)
      ensures View() == NewFixed(capacity)
    {
      var c := if capacity <= 0 then DEFAULT_RING_CAPACITY else capacity;
      data := new byte[c];
      off, len, head := 0, 0, 0;
      cap, minCap, maxCap := c, c, c;
    }

    constructor Adaptive(lowest: int, highest: int)
      ensures Valid() && fresh(data)
      ensures View() == NewAdaptive(lowest, highest)
    {
      var lo := if lowest <= 0 then DEFAULT_MIN_RING_CAPACITY else lowest;
      var hi := if highest <= 0 then DEFAULT_RING_CAPACITY else highest;
      if lo > hi {
        lo := hi;
      }
      data := new byte[lo];
      off, len, head := 0, 0, 0;
      cap, minCap, maxCap := lo, lo, hi;
    }

    /** buf = append(buf[lo : lo + kept], src...), with lo relative to the backing array. */
    method Append(lo: nat, kept: nat, src: seq<byte>)
      requires lo + kept <= data.Length
      modifies this`data, this`off, this`len, data
      ensures data == old(data) || fresh(data)
      ensures len == kept + |src| && off + len <= data.Length
      ensures data[off..off + len] == old(data[lo..lo + kept]) + src
    {
      if lo + kept + |src| <= data.Length {
        forall i | 0 <= i < |src| {
          data[lo + kept + i] := src[i];
        }
        off, len := lo, kept + |src|;
      } else {
        var spare: nat :| 0 <= spare;
        var next := new byte[kept + |src| + spare];
        forall i | 0 <= i < kept {
          next[i] := data[lo + i];
        }
        forall i | 0 <= i < |src| {
          next[kept + i] := src[i];
        }
        data, off, len := next, 0, kept + |src|;
      }
    }

    /** The grow step of Write: raise cap towards maxCap when n more bytes would not fit. */
    method Grow(n: nat)
      requires off + len <= data.Length
      modifies this`cap
      ensures cap == GrownCap(old(View()), n) && cap >= old(cap)
    {
      if maxCap > cap && len + n > cap {
        var needed := len + n;
        var newCap := Min(Max(cap * 2, needed), maxCap);
        if newCap > cap {
          cap := newCap;
        }
      }
    }

    method Write(p: seq<byte>) returns (n: nat)
      requires Valid()
      modifies this, data
      ensures Valid() && (data == old(data) || fresh(data))
      ensures n == |p|
      ensures View() == RingSpec.Write(old(View()), p)
    {
      ghost var before := View();
      n := |p|;
      Grow(n);
      assert data[off..off + len] == before.buf;
      Retain(p);
      head := head + n;
      assert View().buf == Retained(before.buf, p, cap);
      WriteIs(before, View(), p);
    }

    /** The trim-and-append step of Write, under the capacity already chosen. */
    method Retain(p: seq<byte>)
      requires off + len <= data.Length && 0 <= len <= cap
      modifies this`data, this`off, this`len, data
      ensures (data == old(data) || fresh(data)) && off + len <= data.Length
      ensures data[off..off + len] == Retained(old(data[off..off + len]), p, cap)
    {
      var n := |p|;
      var lo, kept, src := off, len, p;
      if n >= cap {
        kept, src := 0, p[n - cap..];
        assert data[lo..lo + kept] + src == src;
      } else if len + n > cap {
        var overflow := len + n - cap;
        lo, kept := off + overflow, len - overflow;
        assert data[lo..lo + kept] == data[off..off + len][overflow..];
      }
      assert data[lo..lo + kept] + src == Retained(data[off..off + len], p, cap);
      Append(lo, kept, src);
    }

    method Head() returns (h: int)
      requires Valid()
      ensures h == View().head
    {
      h := head;
    }

    method Tail() returns (t: int)
      requires Valid()
      ensures t == View().Tail()
    {
      t := head - len;
    }

    /** The answer is a fresh copy, so no later Write or Discard can reach it. */
    method BytesFrom(pos: int) returns (out: array<byte>, err: Option<RingError>)
      requires Valid()
      ensures fresh(out)
      ensures (if err.None? then Ok(out[..]) else Err(err.value)) == RingSpec.BytesFrom(View(), pos)
    {
      var tail := head - len;
      if pos < tail {
        out := new byte[0];
        return out, Some(ErrBeforeRing);
      }
      if pos > head {
        out := new byte[0];
        assert out[..] == [];
        return out, None;
      }
      var skip := pos - tail;
      out := new byte[len - skip];
      forall i | 0 <= i < out.Length {
        out[i] := data[off + skip + i];
      }
      assert out[..] == View().buf[skip..];
      err := None;
    }

    method Discard(before: int)
      requires Valid()
      modifies this
      ensures Valid() && (data == old(data) || fresh(data))
      ensures View() == RingSpec.Discard(old(View()), before)
    {
      var tail := head - len;
      if before <= tail {
        return;
      }
      var drop := before - tail;
      if drop >= len {
        len := 0;
      } else {
        off, len := off + drop, len - drop;
      }
      assert View().buf == Trim(old(View()), before).buf;
      Shrink();
    }

    /** The shrink step of Discard: move to a smaller array when occupancy is below a quarter. */
    method Shrink()
      requires Valid()
      modifies this`data, this`off, this`cap
      ensures Valid() && (data == old(data) || fresh(data))
      ensures var t := old(View());
              View() == if Shrinks(t) then t.(cap := ShrunkCap(t)) else t
    {
      if cap > minCap && len * 4 < cap {
        var newCap := Max(Max(cap / 2, minCap), len);
        if newCap < cap {
          var nb := new byte[newCap];
          forall i | 0 <= i < len {
            nb[i] := data[off + i];
          }
          assert nb[..len] == data[off..off + len];
          data, off, cap := nb, 0, newCap;
          assert View().buf == old(View()).buf;
        }
      }
    }
  }

  method ApplyOp(r: RingBuffer, op: Op)
    requires r.Valid()
    modifies r, r.data
    ensures r.Valid() && (r.data == old(r.data) || fresh(r.data))
    ensures r.View() == Apply(old(r.View()), op)
  {
    match op {
      case OpWrite(p) =>
        var _ := r.Write(p);
      case OpDiscard(before) =>
        r.Discard(before);
    }
  }

  lemma RunStep(r: Ring, ops: seq<Op>, n: nat)
    requires r.Valid() && n < |ops|
    ensures Run(r, ops[..n + 1]) == Apply(Run(r, ops[..n]), ops[n])
  {
    assert ops[..n + 1][..n] == ops[..n];
  }

  /** Bytes handed out by BytesFrom stay as they were through any later run of the same ring, and
      the ring itself ends where the specification's run ends. */
  method SnapshotSurvives(r: RingBuffer, pos: int, later: seq<Op>)
    returns (out: array<byte>, err: Option<RingError>)
    requires r.Valid()
    modifies r, r.data
    ensures r.Valid() && r.View() == Run(old(r.View()), later)
    ensures (if err.None? then Ok(out[..]) else Err(err.value)) == RingSpec.BytesFrom(old(r.View()), pos)
  {
    out, err := r.BytesFrom(pos);
    ghost var taken := out[..];
    var i := 0;
    while i < |later|
      invariant 0 <= i <= |later|
      invariant r.Valid() && (r.data == old(r.data) || fresh(r.data))
      invariant r.data != out && out[..] == taken
      invariant r.View() == Run(old(r.View()), later[..i])
    {
      RunStep(old(r.View()), later, i);
      ApplyOp(r, later[i]);
      i := i + 1;
    }
    assert later[..i] == later;
  }
}
