/** The copy loops of drv_eth.c between lwIP's pbuf chains and the ring of DMA buffers. The
    descriptors form a ring of buf.Length0, each with a buffer of buf.Length1 bytes. */
module Ethernet {
  import opened MemCopy

  function Flatten(s: seq<seq<byte>>): seq<byte> {
    if s == [] then [] else Flatten(s[..|s| - 1]) + s[|s| - 1]
  }

  /** Pieces of a frame: every buffer but the last is full. */
  ghost predicate Packed(segs: seq<seq<byte>>, size: nat) {
    && segs != []
    && (forall k :: 0 <= k < |segs| - 1 ==> |segs[k]| == size)
    && |segs[|segs| - 1]| <= size
  }

  /** How a frame is cut over the descriptors: packed, and a further buffer is begun only if it
      gets something. */
  ghost predicate Cut(segs: seq<seq<byte>>, size: nat) {
    Packed(segs, size) && (|segs| > 1 ==> segs[|segs| - 1] != [])
  }

  /** The one way to do that. */
  function CutUp(s: seq<byte>, size: nat): (r: seq<seq<byte>>)
    requires size > 0
    ensures |r| > 0 && (|r| == 1 ==> r == [s])
  {
    if |s| <= size then [s] else [s[..size]] + CutUp(s[size..], size)
  }

  ghost predicate RowHas(buf: array2<byte>, row: nat, s: seq<byte>)
    requires row < buf.Length0
    reads buf
  {
    |s| <= buf.Length1 && forall o :: 0 <= o < |s| ==> buf[row, o] == s[o]
  }

  /** The descriptor that `d` is linked to, in a ring of `n`. */
  function Next(d: nat, n: nat): nat {
    if d + 1 < n then d + 1 else 0
  }

  /** The descriptor `k` links behind `first`. */
  function Desc(first: nat, k: nat, n: nat): (r: nat)
    requires first < n
    ensures r < n
  {
    if k == 0 then first else Next(Desc(first, k - 1, n), n)
  }

  /** Of the last pieces, as many as the ring has buffers are in their buffers. */
  ghost predicate Holds(buf: array2<byte>, first: nat, segs: seq<seq<byte>>)
    requires first < buf.Length0
    reads buf
  {
    forall k :: 0 <= k < |segs| && |segs| - buf.Length0 <= k ==> RowHas(buf, Desc(first, k, buf.Length0), segs[k])
  }

  /** Behind the bytes of the last piece its buffer still has those of the piece one round before. */
  ghost predicate OldTail(buf: array2<byte>, first: nat, segs: seq<seq<byte>>)
    requires first < buf.Length0
    reads buf
  {
    |segs| > buf.Length0 ==>
      var n, last := buf.Length0, |segs| - 1;
      forall o :: |segs[last]| <= o < |segs[last - n]| && o < buf.Length1 ==>
        buf[Desc(first, last, n), o] == segs[last - n][o]
  }

  /** All pieces are in their buffers. */
  ghost predicate HoldsAll(buf: array2<byte>, first: nat, segs: seq<seq<byte>>)
    requires first < buf.Length0
    reads buf
  {
    forall k :: 0 <= k < |segs| ==> RowHas(buf, Desc(first, k, buf.Length0), segs[k])
  }

  /** The piece one round behind piece `k` has the same bytes, as far as it has any. */
  ghost predicate RepeatsAt(segs: seq<seq<byte>>, k: nat, n: nat)
    requires k + n < |segs|
  {
    forall o :: 0 <= o < |segs[k + n]| && o < |segs[k]| ==> segs[k + n][o] == segs[k][o]
  }

  ghost predicate Repeats(segs: seq<seq<byte>>, n: nat) {
    forall k :: 0 <= k < |segs| - n ==> RepeatsAt(segs, k, n)
  }

  // ----- arithmetic of the ring and of cut frames

  lemma {:induction false} DescAhead(first: nat, j: nat, m: nat, n: nat)
    requires first < n && m < n
    ensures var d := Desc(first, j, n); Desc(first, j + m, n) == if d + m < n then d + m else d + m - n
  {
    if m > 0 { DescAhead(first, j, m - 1, n); }
  }

  /** `n` links lead back. */
  lemma FullRound(first: nat, j: nat, n: nat)
    requires first < n
    ensures Desc(first, j + n, n) == Desc(first, j, n)
  {
    DescAhead(first, j, n - 1, n);
  }

  /** Fewer than `n` links never lead back. */
  lemma DescDistinct(first: nat, j: nat, k: nat, n: nat)
    requires first < n && j < k < j + n
    ensures Desc(first, j, n) != Desc(first, k, n)
  {
    DescAhead(first, j, k - j, n);
  }

  lemma {:induction false} PackedLength(segs: seq<seq<byte>>, size: nat)
    requires Packed(segs, size)
    ensures |Flatten(segs)| == (|segs| - 1) * size + |segs[|segs| - 1]|
    decreases |segs|
  {
    var init := segs[..|segs| - 1];
    if init == [] {
      assert Flatten(init) == [];
    } else {
      PackedLength(init, size);
      assert (|segs| - 1) * size == (|segs| - 2) * size + size;
    }
  }

  /** A frame fits the ring exactly if it is no longer than all buffers together. */
  lemma FitsIff(segs: seq<seq<byte>>, size: nat, n: nat)
    requires Cut(segs, size) && n > 0 && size > 0
    ensures |segs| <= n <==> |Flatten(segs)| <= n * size
  {
    hide Packed, Flatten;
    PackedLength(segs, size);
    PackedLast(segs, size);
    Rows(n + 1, |segs|, size);
    Rows(|segs|, n + 1, size);
  }

  /** A longer frame takes no fewer buffers, and more if the shorter one fills its last. */
  lemma LongerFrame(a: seq<seq<byte>>, b: seq<seq<byte>>, size: nat)
    requires Packed(a, size) && Packed(b, size) && size > 0 && |Flatten(a)| <= |Flatten(b)|
    ensures a[|a| - 1] != [] || |a| == 1 ==> |a| <= |b|
    ensures |Flatten(a)| < |Flatten(b)| && |a[|a| - 1]| == size ==> |a| < |b|
  {
    hide Packed, Flatten;
    PackedLength(a, size);
    PackedLength(b, size);
    PackedLast(a, size);
    PackedLast(b, size);
    Rows(|a|, |b|, size);
  }

  lemma PackedLast(a: seq<seq<byte>>, size: nat)
    requires Packed(a, size)
    ensures |a| > 0 && |a[|a| - 1]| <= size
  {
  }

  lemma {:induction false} Rows(a: nat, b: nat, size: nat)
    ensures a > b ==> (a - 1) * size >= (b - 1) * size + size
    decreases a
  {
    if a > b {
      assert (a - 1) * size == (a - 2) * size + size;
      if a > b + 1 { Rows(a - 1, b, size); }
    }
  }

  lemma FlattenCons(x: seq<byte>, s: seq<seq<byte>>)
    ensures Flatten([x] + s) == x + Flatten(s)
    decreases |s|
  {
    var t := [x] + s;
    if s == [] {
      assert Flatten([x]) == Flatten([x][..0]) + x;
      assert t == [x];
    } else {
      assert t[..|t| - 1] == [x] + s[..|s| - 1];
      FlattenCons(x, s[..|s| - 1]);
    }
  }

  lemma {:induction false} CutUpIsCut(s: seq<byte>, size: nat)
    requires size > 0
    ensures Cut(CutUp(s, size), size) && Flatten(CutUp(s, size)) == s
    decreases |s|
  {
    if |s| <= size {
      FlattenCons(s, []);
      assert [s] + [] == [s];
    } else {
      var x, t := s[..size], CutUp(s[size..], size);
      CutUpIsCut(s[size..], size);
      FlattenCons(x, t);
      hide Flatten;
      var r := [x] + t;
      assert CutUp(s, size) == r && x + s[size..] == s;
      assert r[|r| - 1] == t[|t| - 1] && t[|t| - 1] != [];
      assert forall k :: 0 <= k < |r| - 1 ==> r[k] == if k == 0 then x else t[k - 1];
    }
  }

  /** However a chain is divided, the same bytes are cut the same way. */
  lemma {:induction false} CutUnique(segs: seq<seq<byte>>, size: nat)
    requires Cut(segs, size) && size > 0
    ensures segs == CutUp(Flatten(segs), size)
    decreases |segs|
  {
    var x, rest := segs[0], segs[1..];
    FlattenCons(x, rest);
    assert segs == [x] + rest;
    if rest == [] {
      assert Flatten(segs) == x;
    } else {
      CutUnique(rest, size);
      PackedLength(rest, size);
      assert Flatten(rest) != [];
      assert Flatten(segs)[..size] == x && Flatten(segs)[size..] == Flatten(rest);
    }
  }

  lemma FlattenSnoc(s: seq<seq<byte>>, x: seq<byte>)
    ensures Flatten(s + [x]) == Flatten(s) + x
  {
    assert (s + [x])[..|s|] == s;
  }

  /** More bytes for the last piece. */
  function Extend(segs: seq<seq<byte>>, x: seq<byte>): (r: seq<seq<byte>>)
    requires segs != []
    ensures |r| == |segs|
  {
    segs[..|segs| - 1] + [segs[|segs| - 1] + x]
  }

  lemma FlattenExtend(segs: seq<seq<byte>>, x: seq<byte>)
    requires segs != []
    ensures Flatten(Extend(segs, x)) == Flatten(segs) + x
  {
    var init := segs[..|segs| - 1];
    FlattenSnoc(init, segs[|segs| - 1] + x);
    FlattenSnoc(init, segs[|segs| - 1]);
    assert init + [segs[|segs| - 1]] == segs;
  }

  // ----- frames longer than the ring

  /** Pieces that share a buffer and are both in it agree. */
  lemma HeldRepeats(buf: array2<byte>, first: nat, segs: seq<seq<byte>>)
    requires first < buf.Length0 && HoldsAll(buf, first, segs)
    ensures Repeats(segs, buf.Length0)
  {
    var n := buf.Length0;
    forall k | 0 <= k < |segs| - n ensures RepeatsAt(segs, k, n) {
      FullRound(first, k, n);
      assert RowHas(buf, Desc(first, k, n), segs[k]) && RowHas(buf, Desc(first, k + n, n), segs[k + n]);
    }
  }

  /** A piece that the piece one round later repeats is still in its buffer. */
  lemma {:induction false} RepeatHeld(buf: array2<byte>, first: nat, segs: seq<seq<byte>>, k: nat)
    requires first < buf.Length0 && Packed(segs, buf.Length1) && Holds(buf, first, segs) && OldTail(buf, first, segs)
    requires Repeats(segs, buf.Length0) && k < |segs|
    ensures RowHas(buf, Desc(first, k, buf.Length0), segs[k])
    decreases |segs| - k
  {
    var n := buf.Length0;
    if k + n < |segs| {
      RepeatHeld(buf, first, segs, k + n);
      FullRound(first, k, n);
      forall o | 0 <= o < |segs[k]| ensures buf[Desc(first, k, n), o] == segs[k][o] {
        assert RepeatsAt(segs, k, n);
      }
    }
  }

  /** After the copy every piece is in its buffer exactly if each piece from the second round on
      repeats the one a round before; a frame that fits the ring has no second round. */
  lemma HeldIff(buf: array2<byte>, first: nat, segs: seq<seq<byte>>)
    requires first < buf.Length0 && Packed(segs, buf.Length1) && Holds(buf, first, segs) && OldTail(buf, first, segs)
    ensures HoldsAll(buf, first, segs) <==> Repeats(segs, buf.Length0)
    ensures |segs| <= buf.Length0 ==> HoldsAll(buf, first, segs)
  {
    if HoldsAll(buf, first, segs) { HeldRepeats(buf, first, segs); }
    if Repeats(segs, buf.Length0) {
      forall k | 0 <= k < |segs| ensures RowHas(buf, Desc(first, k, buf.Length0), segs[k]) {
        RepeatHeld(buf, first, segs, k);
      }
    }
  }

  /** Three different bytes do not fit into two one-byte buffers, whatever these hold. */
  lemma ThreeIntoTwo(buf: array2<byte>, first: nat, chain: seq<seq<byte>>)
    requires buf.Length0 == 2 && buf.Length1 == 1 && first < 2 && Flatten(chain) == [1, 2, 3]
    ensures CutUp(Flatten(chain), 1) == [[1], [2], [3]] && !HoldsAll(buf, first, CutUp(Flatten(chain), 1))
  {
    var s: seq<byte> := [1, 2, 3];
    assert s[1..] == [2, 3] && s[1..][1..] == [3] && s[..1] == [1] && s[1..][..1] == [2];
    assert CutUp([3], 1) == [[3]];
    assert CutUp([2, 3], 1) == [[2]] + CutUp([3], 1);
    var segs := CutUp(s, 1);
    assert segs == [[1], [2], [3]];
    assert segs[0 + 2][0] == 3 && segs[0][0] == 1;
    assert !RepeatsAt(segs, 0, 2);
    if HoldsAll(buf, first, segs) { HeldRepeats(buf, first, segs); }
  }

  // ----- transmit

  datatype Sent = Busy | Submitted(length: nat)

  /** memcpy of `x` to offset `off` of the buffer of the last piece. */
  method Fill(buf: array2<byte>, row: nat, off: nat, x: seq<byte>, first: nat, ghost segs: seq<seq<byte>>)
    requires first < buf.Length0 && segs != [] && row == Desc(first, |segs| - 1, buf.Length0)
    requires off == |segs[|segs| - 1]| && off + |x| <= buf.Length1
    requires Holds(buf, first, segs) && OldTail(buf, first, segs)
    modifies buf
    ensures Holds(buf, first, Extend(segs, x)) && OldTail(buf, first, Extend(segs, x))
    ensures forall i, o :: 0 <= i < buf.Length0 && 0 <= o < buf.Length1 && i != row ==> buf[i, o] == old(buf[i, o])
  {
    forall o | off <= o < off + |x| {
      buf[row, o] := x[o - off];
    }
    ghost var n, r := buf.Length0, Extend(segs, x);
    forall k | 0 <= k < |r| && |r| - n <= k
      ensures RowHas(buf, Desc(first, k, n), r[k])
    {
      if k < |r| - 1 {
        DescDistinct(first, k, |r| - 1, n);
        assert r[k] == segs[k] && RowHas(buf, Desc(first, k, n), segs[k]);
      } else {
        assert old(RowHas(buf, row, segs[k]));
      }
    }
  }

  /** The descriptors a frame needs, all of them free. */
  ghost predicate AllFree(own: seq<bool>, first: nat, count: nat)
    requires first < |own|
  {
    forall k :: 0 <= k < count ==> !own[Desc(first, k, |own|)]
  }

  ghost function Row(buf: array2<byte>, i: nat): seq<byte>
    requires i < buf.Length0
    reads buf
  {
    seq(buf.Length1, o requires 0 <= o < buf.Length1 reads buf => buf[i, o])
  }

  /** The buffers that belong to the DMA. */
  ghost function Owned(buf: array2<byte>, own: seq<bool>): seq<seq<byte>>
    requires |own| == buf.Length0
    reads buf
  {
    seq(|own|, i requires 0 <= i < |own| reads buf => if own[i] then Row(buf, i) else [])
  }

  /** Descriptor `d`, written up to `off`, is the last of the pieces `segs`. */
  ghost predicate InFlight(buf: array2<byte>, first: nat, d: nat, off: nat, segs: seq<seq<byte>>)
    reads buf
  {
    && first < buf.Length0 && Packed(segs, buf.Length1)
    && d == Desc(first, |segs| - 1, buf.Length0) && off == |segs[|segs| - 1]|
    && Holds(buf, first, segs) && OldTail(buf, first, segs)
  }

  lemma ExtendPacked(segs: seq<seq<byte>>, x: seq<byte>, size: nat)
    requires Packed(segs, size) && |segs[|segs| - 1]| + |x| <= size
    ensures var r := Extend(segs, x); Packed(r, size) && r[|r| - 1] == segs[|segs| - 1] + x
    ensures var r := Extend(segs, x); Flatten(r) == Flatten(segs) + x
  {
    hide Flatten;
    FlattenExtend(segs, x);
  }

  /** A further descriptor is taken into use. */
  lemma TakeNext(buf: array2<byte>, first: nat, d: nat, segs: seq<seq<byte>>)
    requires InFlight(buf, first, d, buf.Length1, segs)
    ensures InFlight(buf, first, Next(d, buf.Length0), 0, segs + [[]]) && Flatten(segs + [[]]) == Flatten(segs)
  {
    FlattenSnoc(segs, []);
    hide Flatten;
    var r, n := segs + [[]], buf.Length0;
    forall k | 0 <= k < |r| && |r| - n <= k
      ensures RowHas(buf, Desc(first, k, n), r[k])
    {
      if k < |segs| { assert r[k] == segs[k]; }
    }
    if |r| > n {
      FullRound(first, |segs| - n, n);
      assert r[|segs| - n] == segs[|segs| - n] && RowHas(buf, Desc(first, |segs| - n, n), segs[|segs| - n]);
    }
  }

  /** One memcpy into the current buffer. */
  method Append(buf: array2<byte>, own: seq<bool>, first: nat, d: nat, off: nat, x: seq<byte>,
                ghost segs0: seq<seq<byte>>)
    returns (ghost segs: seq<seq<byte>>)
    requires |own| == buf.Length0 && d < |own| && !own[d]
    requires InFlight(buf, first, d, off, segs0) && off + |x| <= buf.Length1
    modifies buf
    ensures Owned(buf, own) == old(Owned(buf, own)) && InFlight(buf, first, d, off + |x|, segs)
    ensures |segs| == |segs0| && Flatten(segs) == Flatten(segs0) + x
    ensures Cut(segs0, buf.Length1) || x != [] ==> Cut(segs, buf.Length1)
  {
    assert segs0 != [];
    hide Flatten, Holds, OldTail, Packed, Cut, Extend;
    ExtendPacked(segs0, x, buf.Length1);
    if Cut(segs0, buf.Length1) || x != [] { ExtendCut(segs0, x, buf.Length1); }
    ghost var was := Owned(buf, own);
    Fill(buf, d, off, x, first, segs0);
    forall i | 0 <= i < |own| ensures Owned(buf, own)[i] == was[i] {
      if i != d && own[i] { assert Row(buf, i) == old(Row(buf, i)); }
    }
    segs := Extend(segs0, x);
  }

  lemma InFlightParts(buf: array2<byte>, first: nat, d: nat, off: nat, segs: seq<seq<byte>>, own: seq<bool>)
    requires InFlight(buf, first, d, off, segs) && |own| == buf.Length0 && AllFree(own, first, |segs|)
    ensures off <= buf.Length1 && d < |own| && !own[d] && Packed(segs, buf.Length1) && |segs[|segs| - 1]| == off
    ensures Next(d, |own|) == Desc(first, |segs|, |own|)
    ensures !own[Next(d, |own|)] ==> AllFree(own, first, |segs| + 1)
  {
  }

  /** The first `c` bytes of the payload have been appended. */
  ghost predicate SoFar(segs: seq<seq<byte>>, segs0: seq<seq<byte>>, payload: seq<byte>, c: nat) {
    c <= |payload| && Flatten(segs) == Flatten(segs0) + payload[..c]
  }

  lemma CopyOn(segs: seq<seq<byte>>, segs0: seq<seq<byte>>, payload: seq<byte>, c: nat, m: nat, segs': seq<seq<byte>>)
    requires SoFar(segs, segs0, payload, c) && c + m <= |payload|
    requires Flatten(segs') == Flatten(segs) + payload[c..c + m]
    ensures SoFar(segs', segs0, payload, c + m)
    ensures |Flatten(segs')| == |Flatten(segs0)| + c + m
    ensures c + m == |payload| ==> Flatten(segs') == Flatten(segs0) + payload
  {
    hide Flatten;
    assert payload[..c] + payload[c..c + m] == payload[..c + m];
  }

  /** The pieces fill their buffers and the next descriptor belongs to the DMA. */
  ghost predicate Stuck(own: seq<bool>, first: nat, segs: seq<seq<byte>>, size: nat) {
    && first < |own| && Packed(segs, size) && |segs[|segs| - 1]| == size
    && own[Desc(first, |segs|, |own|)]
  }

  /** One turn of the inner loop: fill the current buffer up and step to the next descriptor. */
  method Turn(buf: array2<byte>, own: seq<bool>, first: nat, d0: nat, off: nat, x: seq<byte>,
              ghost segs0: seq<seq<byte>>)
    returns (ok: bool, d: nat, ghost segs: seq<seq<byte>>)
    requires |own| == buf.Length0 && InFlight(buf, first, d0, off, segs0) && AllFree(own, first, |segs0|)
    requires off + |x| == buf.Length1
    modifies buf
    ensures Owned(buf, own) == old(Owned(buf, own)) && Flatten(segs) == Flatten(segs0) + x
    ensures ok ==> InFlight(buf, first, d, 0, segs) && AllFree(own, first, |segs|)
    ensures !ok ==> Stuck(own, first, segs, buf.Length1)
  {
    InFlightParts(buf, first, d0, off, segs0, own);
    hide Flatten, Packed, Holds, Owned, Cut, InFlight, AllFree;
    segs := Append(buf, own, first, d0, off, x, segs0);
    InFlightParts(buf, first, d0, buf.Length1, segs, own);
    TakeNext(buf, first, d0, segs);
    d := Next(d0, buf.Length0);
    ok := !own[d];
    if ok {
      segs := segs + [[]];
    }
  }

  /** The inner loop. A turn may copy nothing, when the current buffer is full already; then it
      only moves on. It leaves `payload[copied..]` for the current buffer. */
  method FillBuffers(buf: array2<byte>, own: seq<bool>, first: nat, d0: nat, off0: nat, payload: seq<byte>,
                     ghost segs0: seq<seq<byte>>)
    returns (ok: bool, d: nat, off: nat, copied: nat, ghost segs: seq<seq<byte>>)
    requires buf.Length1 > 0 && |own| == buf.Length0
    requires InFlight(buf, first, d0, off0, segs0) && AllFree(own, first, |segs0|)
    modifies buf
    ensures Owned(buf, own) == old(Owned(buf, own)) && SoFar(segs, segs0, payload, copied)
    ensures ok ==> InFlight(buf, first, d, off, segs) && AllFree(own, first, |segs|)
    ensures ok ==> |payload| - copied + off <= buf.Length1 && (segs == segs0 || copied < |payload|)
    ensures !ok ==> Stuck(own, first, segs, buf.Length1) && copied < |payload|
  {
    InFlightParts(buf, first, d0, off0, segs0, own);
    assert SoFar(segs0, segs0, payload, 0);
    hide *;
    d, off, copied, segs, ok := d0, off0, 0, segs0, true;
    while ok && |payload| - copied + off > buf.Length1
      invariant Owned(buf, own) == old(Owned(buf, own)) && SoFar(segs, segs0, payload, copied)
      invariant ok ==> InFlight(buf, first, d, off, segs) && AllFree(own, first, |segs|)
      invariant !ok ==> Stuck(own, first, segs, buf.Length1)
      invariant off <= buf.Length1 && copied <= |payload|
      invariant (segs == segs0 || copied < |payload|) && (ok || copied < |payload|)
      decreases ok, |payload| - copied, off
    {
      var m := buf.Length1 - off;
      ghost var before := segs;
      ok, d, segs := Turn(buf, own, first, d, off, payload[copied..copied + m], segs);
      CopyOn(before, segs0, payload, copied, m, segs);
      copied, off := copied + m, 0;
    }
  }

  /** One pbuf: the inner loop and the copy behind it. */
  method CopyPbuf(buf: array2<byte>, own: seq<bool>, first: nat, d0: nat, off0: nat, payload: seq<byte>,
                  ghost segs0: seq<seq<byte>>)
    returns (ok: bool, d: nat, off: nat, copied: nat, ghost segs: seq<seq<byte>>)
    requires buf.Length1 > 0 && |own| == buf.Length0 && InFlight(buf, first, d0, off0, segs0)
    requires AllFree(own, first, |segs0|) && Cut(segs0, buf.Length1)
    modifies buf
    ensures Owned(buf, own) == old(Owned(buf, own))
    ensures ok ==> InFlight(buf, first, d, off, segs) && AllFree(own, first, |segs|) && Cut(segs, buf.Length1)
    ensures ok ==> Flatten(segs) == Flatten(segs0) + payload && copied == |payload|
    ensures !ok ==> Stuck(own, first, segs, buf.Length1) && |Flatten(segs)| < |Flatten(segs0)| + |payload|
  {
    hide *;
    ok, d, off, copied, segs := FillBuffers(buf, own, first, d0, off0, payload, segs0);
    SoFarLength(segs, segs0, payload, copied);
    if ok {
      var left := |payload| - copied;
      ghost var before := segs;
      InFlightParts(buf, first, d, off, segs, own);
      segs := Append(buf, own, first, d, off, payload[copied..copied + left], segs);
      CopyOn(before, segs0, payload, copied, left, segs);
      off, copied := off + left, copied + left;
    }
  }

  lemma SoFarLength(segs: seq<seq<byte>>, segs0: seq<seq<byte>>, payload: seq<byte>, c: nat)
    requires SoFar(segs, segs0, payload, c)
    ensures c <= |payload| && |Flatten(segs)| == |Flatten(segs0)| + c
  {
  }

  lemma ExtendCut(segs: seq<seq<byte>>, x: seq<byte>, size: nat)
    requires Packed(segs, size) && |segs[|segs| - 1]| + |x| <= size && (Cut(segs, size) || x != [])
    ensures Cut(Extend(segs, x), size)
  {
  }

  lemma FlattenTake(s: seq<seq<byte>>, j: nat)
    requires j < |s|
    ensures Flatten(s[..j + 1]) == Flatten(s[..j]) + s[j]
  {
    FlattenSnoc(s[..j], s[j]);
    assert s[..j + 1] == s[..j] + [s[j]];
  }

  lemma {:induction false} FlattenPrefix(s: seq<seq<byte>>, j: nat)
    requires j <= |s|
    ensures |Flatten(s[..j])| <= |Flatten(s)| && Flatten(s)[..|Flatten(s[..j])|] == Flatten(s[..j])
    decreases |s| - j
  {
    if j < |s| {
      FlattenPrefix(s, j + 1);
      FlattenTake(s, j);
    } else {
      assert s[..j] == s;
    }
  }

  lemma Nothing(buf: array2<byte>, first: nat)
    requires first < buf.Length0
    ensures InFlight(buf, first, first, 0, [[]]) && Cut([[]], buf.Length1) && Flatten([[]]) == []
  {
    var none: seq<seq<byte>> := [];
    FlattenSnoc(none, []);
    assert none + [[]] == [[]];
  }

  /** Meeting a descriptor of the DMA's means that the whole frame would have needed it. */
  lemma StuckIsNeeded(own: seq<bool>, first: nat, segs: seq<seq<byte>>, frame: seq<byte>, size: nat)
    requires size > 0 && Stuck(own, first, segs, size) && |Flatten(segs)| < |frame|
    ensures !AllFree(own, first, |CutUp(frame, size)|)
  {
    CutUpIsCut(frame, size);
    LongerFrame(segs, CutUp(frame, size), size);
  }

  /** The copy loop of rt_stm32_eth_tx. It gives up exactly if one of the descriptors the frame
      needs is not its own, never writes to such a buffer, and otherwise submits the flattened
      chain, cut up over the buffers from `first` on: all of it if it fits the ring, and else
      exactly if its bytes repeat from round to round. */
  method Transmit(buf: array2<byte>, own: seq<bool>, first: nat, chain: seq<seq<byte>>) returns (r: Sent)
    requires first < buf.Length0 == |own| && buf.Length1 > 0
    modifies buf
    ensures Owned(buf, own) == old(Owned(buf, own))
    ensures r == Busy <==> chain != [] && !AllFree(own, first, |CutUp(Flatten(chain), buf.Length1)|)
    ensures r.Submitted? ==> r.length == |Flatten(chain)| && Holds(buf, first, CutUp(Flatten(chain), buf.Length1))
    ensures r.Submitted? ==>
      var segs := CutUp(Flatten(chain), buf.Length1);
      HoldsAll(buf, first, segs) <==> Repeats(segs, buf.Length0)
    ensures r.Submitted? && |Flatten(chain)| <= buf.Length0 * buf.Length1 ==>
      HoldsAll(buf, first, CutUp(Flatten(chain), buf.Length1))
  {
    var d: nat, off: nat, length: nat := first, 0, 0;
    ghost var segs := [[]];
    ghost var frame := Flatten(chain);
    Nothing(buf, first);
    assert Flatten(chain[..0]) == [] && chain[..|chain|] == chain;
    hide Flatten, CutUp, Owned, Cut, InFlight, Stuck, Holds, OldTail, HoldsAll, Repeats, Packed;
    var j := 0;
    while j < |chain|
      invariant 0 <= j <= |chain| && Owned(buf, own) == old(Owned(buf, own))
      invariant InFlight(buf, first, d, off, segs) && Cut(segs, buf.Length1) && d < |own|
      invariant Flatten(segs) == Flatten(chain[..j]) && length == |Flatten(segs)|
      invariant if j == 0 then d == first && |segs| == 1 else AllFree(own, first, |segs|)
    {
      FlattenTake(chain, j);
      FlattenPrefix(chain, j + 1);
      if own[d] {
        OwnedIsFirst(buf, own, first, d, off, segs);
        return Busy;
      }
      assert AllFree(own, first, |segs|);
      var ok, copied;
      ok, d, off, copied, segs := CopyPbuf(buf, own, first, d, off, chain[j], segs);
      if !ok {
        StuckIsNeeded(own, first, segs, frame, buf.Length1);
        return Busy;
      }
      InFlightParts(buf, first, d, off, segs, own);
      length, j := length + copied, j + 1;
    }
    CutUnique(segs, buf.Length1);
    InFlightHolds(buf, first, d, off, segs);
    HeldIff(buf, first, segs);
    FitsIff(segs, buf.Length1, buf.Length0);
    return Submitted(length);
  }

  lemma OwnedIsFirst(buf: array2<byte>, own: seq<bool>, first: nat, d: nat, off: nat, segs: seq<seq<byte>>)
    requires InFlight(buf, first, d, off, segs) && |own| == buf.Length0 && own[d]
    ensures !AllFree(own, first, |segs|)
    ensures d == first ==> forall n :: n > 0 ==> !AllFree(own, first, n)
  {
    assert Desc(first, 0, |own|) == first;
  }

  lemma InFlightHolds(buf: array2<byte>, first: nat, d: nat, off: nat, segs: seq<seq<byte>>)
    requires InFlight(buf, first, d, off, segs)
    ensures first < buf.Length0 && Packed(segs, buf.Length1) && Holds(buf, first, segs) && OldTail(buf, first, segs)
  {
  }

  // ----- receive

  function Sum(lens: seq<nat>): nat {
    if lens == [] then 0 else Sum(lens[..|lens| - 1]) + lens[|lens| - 1]
  }

  /** What has been read when the reader stands `off` bytes into piece `k`. */
  ghost function Upto(segs: seq<seq<byte>>, k: nat, off: nat): seq<byte>
    requires k < |segs| && off <= |segs[k]|
  {
    Flatten(segs[..k]) + segs[k][..off]
  }

  /** A reader with `left` bytes still to read never runs past the pieces. */
  lemma RoomLeft(segs: seq<seq<byte>>, size: nat, k: nat, off: nat, left: nat)
    requires Packed(segs, size) && k < |segs| && off <= |segs[k]|
    requires |Upto(segs, k, off)| + left <= |Flatten(segs)|
    ensures off <= size
    ensures left + off > size ==> k + 1 < |segs| && |segs[k]| == size
    ensures left + off <= size ==> off + left <= |segs[k]|
  {
    if k + 1 == |segs| {
      FlattenTake(segs, k);
      assert segs[..k + 1] == segs;
    }
  }

  lemma ReadOn(segs: seq<seq<byte>>, k: nat, off: nat, m: nat)
    requires k < |segs| && off + m <= |segs[k]|
    ensures Upto(segs, k, off + m) == Upto(segs, k, off) + segs[k][off..off + m]
  {
    assert segs[k][..off + m] == segs[k][..off] + segs[k][off..off + m];
  }

  lemma StepOn(segs: seq<seq<byte>>, k: nat)
    requires k + 1 < |segs|
    ensures Upto(segs, k + 1, 0) == Upto(segs, k, |segs[k]|)
  {
    FlattenTake(segs, k);
    assert segs[k][..|segs[k]|] == segs[k];
  }

  /** memcpy out of a buffer. */
  method ReadRow(buf: array2<byte>, d: nat, off: nat, m: nat, ghost s: seq<byte>) returns (x: seq<byte>)
    requires d < buf.Length0 && RowHas(buf, d, s) && off + m <= |s|
    ensures x == s[off..off + m]
  {
    x := seq(m, i requires 0 <= i < m && off + m <= buf.Length1 && d < buf.Length0 reads buf => buf[d, off + i]);
  }

  /** One pbuf of `len` bytes, from `off` bytes into the buffer of piece `k` on. */
  method FillPbuf(buf: array2<byte>, first: nat, d0: nat, off0: nat, len: nat, ghost k0: nat,
                  ghost segs: seq<seq<byte>>)
    returns (payload: seq<byte>, d: nat, off: nat, ghost k: nat)
    requires first < buf.Length0 && buf.Length1 > 0 && |segs| <= buf.Length0
    requires Packed(segs, buf.Length1) && Holds(buf, first, segs)
    requires k0 < |segs| && d0 == Desc(first, k0, buf.Length0) && off0 <= |segs[k0]|
    requires |Upto(segs, k0, off0)| + len <= |Flatten(segs)|
    ensures k < |segs| && d == Desc(first, k, buf.Length0) && off <= |segs[k]|
    ensures |payload| == len && Upto(segs, k, off) == Upto(segs, k0, off0) + payload
  {
    payload, d, off, k := [], d0, off0, k0;
    var left: nat := len;
    hide Flatten, Packed, Upto, RowHas;
    while left + off > buf.Length1
      invariant k < |segs| && d == Desc(first, k, buf.Length0) && off <= |segs[k]|
      invariant |payload| + left == len && Upto(segs, k, off) == Upto(segs, k0, off0) + payload
      decreases left, off
    {
      RoomLeft(segs, buf.Length1, k, off, left);
      var m := buf.Length1 - off;
      assert RowHas(buf, d, segs[k]);
      var x := ReadRow(buf, d, off, m, segs[k]);
      ReadOn(segs, k, off, m);
      StepOn(segs, k);
      payload := payload + x;
      d, k := Next(d, buf.Length0), k + 1;
      left, off := left - m, 0;
    }
    RoomLeft(segs, buf.Length1, k, off, left);
    assert RowHas(buf, d, segs[k]);
    var x := ReadRow(buf, d, off, left, segs[k]);
    ReadOn(segs, k, off, left);
    payload, off := payload + x, off + left;
  }

  /** The copy loop of rt_stm32_eth_rx into a chain of pbufs with the given lengths: whatever
      the lengths, the chain holds the bytes of the frame in order. */
  method Receive(buf: array2<byte>, first: nat, lens: seq<nat>, ghost segs: seq<seq<byte>>)
    returns (chain: seq<seq<byte>>)
    requires first < buf.Length0 && buf.Length1 > 0 && |segs| <= buf.Length0
    requires Packed(segs, buf.Length1) && Holds(buf, first, segs) && Sum(lens) <= |Flatten(segs)|
    ensures |chain| == |lens| && forall i :: 0 <= i < |lens| ==> |chain[i]| == lens[i]
    ensures Flatten(chain) == Flatten(segs)[..Sum(lens)]
  {
    chain := [];
    var d: nat, off: nat, j := first, 0, 0;
    ghost var k: nat := 0;
    assert Upto(segs, 0, 0) == [] && Flatten(chain) == [];
    assert Sum(lens[..0]) == 0 && lens[..|lens|] == lens;
    hide Flatten, Packed, Upto, Holds;
    while j < |lens|
      invariant 0 <= j <= |lens| && |chain| == j && k < |segs| && off <= |segs[k]| && d == Desc(first, k, buf.Length0)
      invariant forall i :: 0 <= i < j ==> |chain[i]| == lens[i]
      invariant Upto(segs, k, off) == Flatten(chain) && |Flatten(chain)| == Sum(lens[..j])
    {
      SumTake(lens, j);
      var payload;
      payload, d, off, k := FillPbuf(buf, first, d, off, lens[j], k, segs);
      FlattenSnoc(chain, payload);
      chain, j := chain + [payload], j + 1;
    }
    UptoPrefix(segs, k, off);
  }

  lemma {:induction false} SumTake(lens: seq<nat>, j: nat)
    requires j < |lens|
    ensures Sum(lens[..j + 1]) == Sum(lens[..j]) + lens[j] <= Sum(lens)
    decreases |lens|
  {
    assert lens[..j + 1][..j] == lens[..j];
    var init := lens[..|lens| - 1];
    if j + 1 < |lens| {
      SumTake(init, j);
      assert init[..j + 1] == lens[..j + 1];
    } else {
      assert lens[..j + 1] == lens;
    }
  }

  lemma UptoPrefix(segs: seq<seq<byte>>, k: nat, off: nat)
    requires k < |segs| && off <= |segs[k]|
    ensures var u := Upto(segs, k, off); |u| <= |Flatten(segs)| && Flatten(segs)[..|u|] == u
  {
    FlattenPrefix(segs, k + 1);
    FlattenTake(segs, k);
    hide Flatten;
  }

  /** A frame that was submitted and fits the ring is read back as it was, whatever chain it
      came from and whatever chain it goes to. */
  method RoundTrip(buf: array2<byte>, own: seq<bool>, first: nat, chain: seq<seq<byte>>, lens: seq<nat>)
    returns (r: Sent, back: seq<seq<byte>>)
    requires first < buf.Length0 == |own| && buf.Length1 > 0
    requires |Flatten(chain)| <= buf.Length0 * buf.Length1 && Sum(lens) == |Flatten(chain)|
    modifies buf
    ensures r.Submitted? ==> Flatten(back) == Flatten(chain)
  {
    back := [];
    r := Transmit(buf, own, first, chain);
    if r.Submitted? {
      ghost var segs := CutUp(Flatten(chain), buf.Length1);
      CutUpIsCut(Flatten(chain), buf.Length1);
      FitsIff(segs, buf.Length1, buf.Length0);
      back := Receive(buf, first, lens, segs);
    }
  }
}
