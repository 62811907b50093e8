/** rt_memcpy of kservice.c, the version that is not built with RT_USING_TINY_SIZE: four
    machine words at a time, then single words, then single bytes. */
module MemCopy {
  newtype byte = x: int | 0 <= x < 256

  /** `m` with the `n` bytes at `src` written over the `n` bytes at `dst`. */
  function Copied(m: seq<byte>, dst: nat, src: nat, n: nat): (r: seq<byte>)
    requires dst + n <= |m| && src + n <= |m|
    ensures |r| == |m|
  {
    seq(|m|, i requires 0 <= i < |m| => if dst <= i < dst + n then m[src + (i - dst)] else m[i])
  }

  ghost predicate Disjoint(p: int, n: int, q: int, k: int) {
    p + n <= q || q + k <= p
  }

  /** Copying the next stretch extends what has been copied so far. */
  lemma CopiedFurther(m: seq<byte>, dst: nat, src: nat, k: nat, w: nat)
    requires dst + k + w <= |m| && src + k + w <= |m|
    requires Disjoint(dst, k + w, src, k + w)
    ensures Copied(Copied(m, dst, src, k), dst + k, src + k, w) == Copied(m, dst, src, k + w)
  {
  }

  /** One load and one store of `w` bytes, `k` bytes into a copy that began from `m`. */
  method CopyUnit(a: array<byte>, dst: nat, src: nat, k: nat, w: nat, ghost m: seq<byte>)
    requires |m| == a.Length
    requires dst + k + w <= a.Length && src + k + w <= a.Length
    requires Disjoint(dst, k + w, src, k + w)
    requires a[..] == Copied(m, dst, src, k)
    modifies a
    ensures a[..] == Copied(m, dst, src, k + w)
  {
    var v := a[src + k..src + k + w];
    forall i | 0 <= i < w {
      a[dst + k + i] := v[i];
    }
    assert a[..] == Copied(old(a[..]), dst + k, src + k, w);
    CopiedFurther(m, dst, src, k, w);
  }

  /** The two word loops: four words at a time, then one at a time. */
  method CopyWords(a: array<byte>, word: nat, dst: nat, src: nat, count: nat) returns (done: nat)
    requires word > 0
    requires dst + count <= a.Length && src + count <= a.Length
    requires Disjoint(dst, count, src, count)
    modifies a
    ensures done <= count < done + word
    ensures a[..] == Copied(old(a[..]), dst, src, done)
  {
    ghost var m := a[..];
    done := 0;
    assert m == Copied(m, dst, src, 0);
    while done + word + word + word + word <= count
      invariant done <= count
      invariant a[..] == Copied(m, dst, src, done)
    {
      CopyUnit(a, dst, src, done, word, m);
      CopyUnit(a, dst, src, done + word, word, m);
      CopyUnit(a, dst, src, done + word + word, word, m);
      CopyUnit(a, dst, src, done + word + word + word, word, m);
      done := done + word + word + word + word;
    }
    while done + word <= count
      invariant done <= count
      invariant a[..] == Copied(m, dst, src, done)
    {
      CopyUnit(a, dst, src, done, word, m);
      done := done + word;
    }
  }

  /** `word` is sizeof(long); `base` is the address of `a[0]`, which decides whether the two
      pointers are word aligned. */
  method Memcpy(a: array<byte>, base: nat, word: nat, dst: nat, src: nat, count: nat)
    requires word > 0
    requires dst + count <= a.Length && src + count <= a.Length
    requires Disjoint(dst, count, src, count)
    modifies a
    ensures a[..] == Copied(old(a[..]), dst, src, count)
  {
    ghost var m := a[..];
    var done := 0;
    assert m == Copied(m, dst, src, 0);
    if count >= 4 * word && (base + src) % word == 0 && (base + dst) % word == 0 {
      done := CopyWords(a, word, dst, src, count);
    }
    while done < count
      invariant done <= count
      invariant a[..] == Copied(m, dst, src, done)
    {
      CopyUnit(a, dst, src, done, 1, m);
      done := done + 1;
    }
  }
}
