// The output side of the inflater (struct inflate_out_t): a 32 KiB ring window, an output buffer
// drained by partial writes, a running length and a running CRC.

module Output {
  import opened Bits
  import Crc32

  const WINDOW := 32768
  const OUTBUF := 8192
  const U64 := 0x1_0000_0000_0000_0000

  // ---- the full history --------------------------------------------------------------

  /** The byte `k` places back in 32768 zeros followed by everything emitted. */
  function Back(out: seq<byte>, k: int): byte
    requires 1 <= k <= WINDOW
  {
    if k <= |out| then out[|out| - k] else 0
  }

  /** An LZ77 copy on the full history: `length` times the byte `distance` back. */
  function Copy(out: seq<byte>, length: nat, distance: int): seq<byte>
    requires 1 <= distance <= WINDOW
    decreases length
  {
    if length == 0 then out else Copy(out + [Back(out, distance)], length - 1, distance)
  }

  lemma CopyNone(out: seq<byte>, distance: int)
    requires 1 <= distance <= WINDOW
    ensures Copy(out, 0, distance) == out
  {
  }

  lemma CopyStep(out: seq<byte>, length: nat, distance: int)
    requires 1 <= distance <= WINDOW && length > 0
    ensures Copy(out, length, distance) == Copy(out + [Back(out, distance)], length - 1, distance)
  {
  }

  lemma {:induction false} CopyKeeps(out: seq<byte>, length: nat, distance: int)
    requires 1 <= distance <= WINDOW
    ensures out <= Copy(out, length, distance)
    decreases length
  {
    if length != 0 {
      CopyKeeps(out + [Back(out, distance)], length - 1, distance);
    }
  }

  /** Everything that can be referred to: 32768 zeros and what has been emitted. */
  ghost function History(out: seq<byte>): (r: seq<byte>)
    ensures |r| == WINDOW + |out|
  {
    seq(WINDOW, (_: nat) => 0) + out
  }

  lemma BackInHistory(out: seq<byte>, k: int)
    requires 1 <= k <= WINDOW
    ensures Back(out, k) == History(out)[WINDOW + |out| - k]
  {
  }

  /** A copy appends, and every byte it appends repeats the one `distance` before it in the history. */
  lemma {:induction false} CopyRepeats(out: seq<byte>, length: nat, distance: int)
    requires 1 <= distance <= WINDOW
    ensures var r := Copy(out, length, distance);
            && |r| == |out| + length && out <= r
            && forall i :: WINDOW + |out| <= i < WINDOW + |r| ==> History(r)[i] == History(r)[i - distance]
    decreases length
  {
    if length != 0 {
      hide History, Back;
      var b := Back(out, distance);
      var next, r := out + [b], Copy(out, length, distance);
      CopyRepeats(next, length - 1, distance);
      BackInHistory(out, distance);
      KeepsHistory(out, b, r, distance);
    }
  }

  lemma KeepsHistory(out: seq<byte>, b: byte, r: seq<byte>, distance: int)
    requires 1 <= distance <= WINDOW && out + [b] <= r
    ensures History(r)[WINDOW + |out|] == b
            && History(r)[WINDOW + |out| - distance] == History(out)[WINDOW + |out| - distance]
    ensures out <= r
  {
    assert r[..|out| + 1] == out + [b];
  }

  /** A copy longer than its distance extends the last `distance` bytes of the history periodically. */
  lemma CopyPeriodic(out: seq<byte>, length: nat, distance: int, j: nat)
    requires 1 <= distance <= WINDOW && j < length
    ensures |Copy(out, length, distance)| == |out| + length
    ensures Copy(out, length, distance)[|out| + j] == History(out)[WINDOW + |out| - distance + j % distance]
  {
    hide Copy, Back;
    CopyRepeats(out, length, distance);
    var r := Copy(out, length, distance);
    var q, k := j / distance, j % distance;
    assert j == distance * q + k;
    Periods(History(r), WINDOW + |out|, distance, q, k);
  }

  /** A stretch in which every element repeats the one `d` before it. */
  lemma {:induction false} Periods(h: seq<byte>, n: nat, d: nat, q: nat, k: nat)
    requires 1 <= d <= n && k < d && n + (d * q + k) < |h|
    requires forall i :: n <= i < |h| ==> h[i] == h[i - d]
    ensures h[n + (d * q + k)] == h[n - d + k]
    decreases q
  {
    if q == 0 {
      assert h[n + k] == h[n + k - d];
    } else {
      assert d * q == d * (q - 1) + d;
      assert 0 <= d * (q - 1);
      Periods(h, n, d, q - 1, k);
      var i := n + (d * q + k);
      assert h[i] == h[i - d];
    }
  }

  /** The ring holds the last 32768 bytes of the history, the newest just before the write position. */
  ghost predicate Ring(window: seq<byte>, out: seq<byte>) {
    && |window| == WINDOW
    && forall k :: 1 <= k <= WINDOW ==> window[(|out| - k) % WINDOW] == Back(out, k)
  }

  lemma RingAt(window: seq<byte>, out: seq<byte>, k: int)
    requires Ring(window, out) && 1 <= k <= WINDOW && |window| == WINDOW
    ensures window[(|out| - k) % WINDOW] == Back(out, k)
  {
  }

  lemma RingStep(window: seq<byte>, out: seq<byte>, b: byte)
    requires Ring(window, out)
    ensures Ring(window[|out| % WINDOW := b], out + [b])
  {
    var n, next := |out|, window[|out| % WINDOW := b];
    forall k | 1 <= k <= WINDOW
      ensures next[(n + 1 - k) % WINDOW] == Back(out + [b], k)
    {
      if k != 1 {
        var j := k - 1;
        assert n + 1 - k == n - j;
        assert (n - j) % WINDOW != n % WINDOW;
        assert window[(n - j) % WINDOW] == Back(out, j);
      }
    }
  }

  /** The 64-bit write position wraps around without disturbing the ring index. */
  lemma WrapIndex(n: nat, d: int)
    ensures ((n % U64 - d) % U64) % WINDOW == (n - d) % WINDOW
    ensures (n % U64) % WINDOW == n % WINDOW
    ensures (n % U64 + 1) % U64 == (n + 1) % U64
  {
    LowPart(n % U64 - d);
    LowPart(n);
    SameLowPart(n % U64 - d, n - d, n / U64);
  }

  /** The window divides the range of the 64-bit counters. */
  const TIMES := 0x2_0000_0000_0000

  lemma SameLowPart(m: int, n: int, q: int)
    requires n == U64 * q + m
    ensures m % WINDOW == n % WINDOW
  {
    assert n == WINDOW * (TIMES * q) + m;
  }

  lemma LowPart(n: int)
    ensures (n % U64) % WINDOW == n % WINDOW
  {
    SameLowPart(n % U64, n, n / U64);
  }

  // ---- the file that is written -------------------------------------------------------

  /** A file descriptor open for writing. */
  class Fd {
    ghost var written: seq<byte>

    /** How many writes have failed. */
    ghost var errors: nat

    constructor ()
      ensures written == [] && errors == 0
    {
      written, errors := [], 0;
    }

    /** sys_write: any positive number of bytes up to all of them, or an error. */
    method Write(p: seq<byte>) returns (w: int)
      requires p != []
      modifies this
      ensures w <= |p|
      ensures written == old(written) + (if w > 0 then p[..w] else [])
      ensures errors == old(errors) + (if w > 0 then 0 else 1)
    {
      var n: int := *;
      w := if n > |p| then |p| else n;
      ghost var sent := if w > 0 then p[..w] else [];
      written := written + sent;
      errors := errors + if w > 0 then 0 else 1;
    }
  }

  // ---- the output context ---------------------------------------------------------------

  lemma PrefixThrough(w: seq<byte>, b: seq<byte>, e: seq<byte>, f: seq<byte>)
    requires w <= b + e && e <= f
    ensures w <= b + f
  {
    assert b + f == (b + e) + f[|e|..];
  }

  lemma Regroup(w: seq<byte>, h: seq<byte>, v: seq<byte>, e: seq<byte>, b: seq<byte>)
    requires w + h == v + e
    ensures w + (h + b) == v + (e + b)
  {
    assert w + (h + b) == (w + h) + b;
    assert v + (e + b) == (v + e) + b;
  }

  class InflateOut {
    const fd: Fd
    const outbuf: array<byte>
    var outpos: nat
    const window: array<byte>
    var winpos: nat
    var total: nat
    var crc: bv32

    /** Everything emitted so far, and what the file held before. */
    ghost var emitted: seq<byte>
    ghost const before: seq<byte>

    ghost predicate Shape()
      reads this
    {
      outbuf.Length == OUTBUF && window.Length == WINDOW && outbuf != window
    }

    ghost predicate Counts()
      reads this
    {
      && winpos == total == |emitted| % U64
      && crc == Crc32.Run(Crc32.ALL_ONES, emitted)
    }

    /** What has been written and what is still buffered make up what has been emitted. */
    ghost predicate Flushed()
      reads this, fd, outbuf
    {
      && Shape() && outpos <= OUTBUF
      && fd.written + outbuf[..outpos] == before + emitted
    }

    ghost predicate Valid()
      reads this, fd, outbuf, window
    {
      && Flushed() && Counts() && Ring(window[..], emitted)
      && outpos == |emitted| % OUTBUF
    }

    constructor (fd: Fd)
      ensures Valid() && emitted == [] && before == fd.written && this.fd == fd
      ensures fresh(outbuf) && fresh(window)
    {
      this.fd := fd;
      outbuf := new byte[OUTBUF](_ => 0);
      window := new byte[WINDOW](_ => 0);
      outpos, winpos, total, crc := 0, 0, 0, Crc32.ALL_ONES;
      emitted, before := [], fd.written;
    }

    /** inf_flush: hand the buffer to the file however it cuts it up. */
    method Flush() returns (ok: bool)
      requires Flushed()
      modifies this`outpos, fd
      ensures fd.errors == old(fd.errors) + (if ok then 0 else 1)
      ensures old(fd.written) <= fd.written
      ensures ok ==> outpos == 0 && fd.written == before + emitted
      ensures !ok ==> fd.written <= before + emitted
    {
      var done := 0;
      while done < outpos
        invariant 0 <= done <= outpos && outpos == old(outpos)
        invariant fd.written + outbuf[done..outpos] == before + emitted
        invariant fd.errors == old(fd.errors) && old(fd.written) <= fd.written
        decreases outpos - done
      {
        var w := fd.Write(outbuf[done..outpos]);
        if w <= 0 {
          return false;
        }
        assert outbuf[done..outpos][..w] + outbuf[done + w..outpos] == outbuf[done..outpos];
        done := done + w;
      }
      outpos := 0;
      return true;
    }

    /** The first four statements of inf_emit. */
    method Put(b: byte)
      requires Valid()
      modifies this, outbuf, window
      ensures emitted == old(emitted) + [b] && outpos == old(outpos) + 1
      ensures Flushed() && Counts() && Ring(window[..], emitted)
    {
      hide Crc32.Run, Crc32.Update, Back, Ring;
      ghost var ring, held := window[..], outbuf[..outpos];
      WrapIndex(|emitted|, 0);
      RingStep(ring, emitted, b);
      window[winpos % WINDOW] := b;
      assert window[..] == ring[|emitted| % WINDOW := b];
      winpos := (winpos + 1) % U64;
      crc := Crc32.Crc32Update(crc, b);
      outbuf[outpos] := b;
      outpos := outpos + 1;
      assert outbuf[..outpos] == held + [b];
      total := (total + 1) % U64;
      emitted := emitted + [b];
      Crc32.RunAppend(Crc32.ALL_ONES, old(emitted), b);
      Regroup(fd.written, held, before, old(emitted), [b]);
    }

    /** inf_emit. */
    method Emit(b: byte) returns (ok: bool)
      requires Valid()
      modifies this, fd, outbuf, window
      ensures emitted == old(emitted) + [b]
      ensures fd.errors == old(fd.errors) + (if ok then 0 else 1)
      ensures old(fd.written) <= fd.written
      ensures ok ==> Valid()
      ensures !ok ==> before <= fd.written <= before + emitted
    {
      hide Crc32.Run, Ring;
      OnlyAppended();
      Put(b);
      if outpos >= OUTBUF {
        ok := Flush();
      } else {
        ok := true;
      }
    }

    /** The copy loop of inflate_to_fd for one length-distance pair. */
    method CopyMatch(length: nat, distance: int) returns (ok: bool)
      requires Valid() && 1 <= distance <= WINDOW
      modifies this, fd, outbuf, window
      ensures fd.errors == old(fd.errors) + (if ok then 0 else 1)
      ensures old(fd.written) <= fd.written
      ensures ok ==> Valid() && emitted == Copy(old(emitted), length, distance)
      ensures !ok ==> before <= fd.written <= before + Copy(old(emitted), length, distance)
    {
      hide Crc32.Run, Back, Copy, Ring;
      CopyNone(emitted, distance);
      for i := 0 to length
        invariant Valid() && fd.errors == old(fd.errors) && old(fd.written) <= fd.written
        invariant Copy(old(emitted), length, distance) == Copy(emitted, length - i, distance)
      {
        WrapIndex(|emitted|, distance);
        RingAt(window[..], emitted, distance);
        var byte := window[((winpos - distance) % U64) % WINDOW];
        CopyStep(emitted, length - i, distance);
        ok := Emit(byte);
        if !ok {
          CopyKeeps(emitted, length - i - 1, distance);
          PrefixThrough(fd.written, before, emitted, Copy(emitted, length - i - 1, distance));
          return;
        }
      }
      CopyNone(emitted, distance);
      ok := true;
    }

    lemma OnlyAppended()
      requires Valid()
      ensures before <= fd.written
    {
      hide Crc32.Run, Ring;
      WrittenSoFar();
    }

    /** At any time the file has received the whole buffers emitted so far. */
    lemma WrittenSoFar()
      requires Valid()
      ensures fd.written == before + emitted[..|emitted| - |emitted| % 8192]
    {
      var n := |emitted| - outpos;
      var a, b, c := fd.written, outbuf[..outpos], before + emitted;
      assert |a| == |before| + n;
      assert a == (a + b)[..|a|] == c[..|a|];
      assert c[..|before| + n] == before + emitted[..n];
    }

    /** inflate_get_crc. */
    method GetCrc() returns (r: bv32)
      requires Counts()
      ensures r == Crc32.Crc(emitted)
    {
      return crc ^ Crc32.ALL_ONES;
    }
  }
}
