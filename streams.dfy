/** Files as byte sequences, read the way a Python binary file object reads
    them after `seek(pos)`. */
module Streams {

  newtype byte = x: int | 0 <= x < 256

  function Min(a: int, b: int): int
  {
    if a < b then a else b
  }

  /** `f.seek(pos); f.read(n)`: up to `n` bytes from position `pos`; nothing at or past the end. */
  function ReadAt(data: seq<byte>, pos: nat, n: nat): (r: seq<byte>)
    ensures |r| <= n
    ensures pos + n <= |data| ==> |r| == n
  {
    if |data| <= pos then [] else data[pos..Min(pos + n, |data|)]
  }

  /** A read returns the bytes at its position; it comes back empty only when
      nothing was asked for or the position is at or past the end, and short
      only when it reaches the end. */
  lemma ReadAtShape(data: seq<byte>, pos: nat, n: nat)
    ensures ReadAt(data, pos, n) == [] <==> n == 0 || |data| <= pos
    ensures var r := ReadAt(data, pos, n);
      r == [] || (pos + |r| <= |data| && r == data[pos..pos + |r|])
    ensures |ReadAt(data, pos, n)| < n ==> |data| <= pos + |ReadAt(data, pos, n)|
  {
  }

  /** A read that stays inside the data is a plain slice. */
  lemma ReadAtInside(data: seq<byte>, pos: nat, n: nat)
    requires pos + n <= |data|
    ensures ReadAt(data, pos, n) == data[pos..pos + n]
  {
  }

  /** Two reads in a row, the second starting where the first stopped, read the
      same bytes as one read of the combined length. */
  lemma ReadAtThenRead(data: seq<byte>, pos: nat, a: nat, b: nat)
    ensures ReadAt(data, pos, a) + ReadAt(data, pos + |ReadAt(data, pos, a)|, b) == ReadAt(data, pos, a + b)
  {
    if pos < |data| {
      var first := ReadAt(data, pos, a);
      if pos + a < |data| {
        assert data[pos..pos + a] + data[pos + a..Min(pos + a + b, |data|)] == data[pos..Min(pos + a + b, |data|)];
      }
    }
  }

  /** The bytes of a sequence of writes, in order. */
  function Flatten(writes: seq<seq<byte>>): seq<byte>
    decreases |writes|
  {
    if writes == [] then [] else Flatten(writes[..|writes| - 1]) + writes[|writes| - 1]
  }

  /** The bytes of one more write follow the bytes of the writes before it. */
  lemma FlattenSnoc(writes: seq<seq<byte>>, chunk: seq<byte>)
    ensures Flatten(writes + [chunk]) == Flatten(writes) + chunk
  {
    assert (writes + [chunk])[..|writes|] == writes;
  }

  /** The bytes of a write followed by more writes. */
  lemma {:induction false} FlattenCons(chunk: seq<byte>, rest: seq<seq<byte>>)
    ensures Flatten([chunk] + rest) == chunk + Flatten(rest)
    decreases |rest|
  {
    if rest != [] {
      var init, last := rest[..|rest| - 1], rest[|rest| - 1];
      assert ([chunk] + rest)[..|rest|] == [chunk] + init;
      FlattenCons(chunk, init);
      assert rest[..|rest| - 1] == init;
    } else {
      assert [chunk] + rest == [chunk];
      assert [chunk][..0] == [];
    }
  }

  /** The number of rounds a copy of `size` bytes makes when each round moves
      at most `n` bytes: one per started block of `n`, none for a size of zero
      or less. */
  function Rounds(size: int, n: nat): nat
    requires n > 0
    decreases size
  {
    if size <= 0 then 0 else 1 + Rounds(size - n, n)
  }

  /** `Rounds` is the size divided by `n`, rounded up. */
  lemma {:induction false} RoundsBounds(size: int, n: nat)
    requires n > 0
    ensures size > 0 ==> n * (Rounds(size, n) - 1) < size <= n * Rounds(size, n)
    ensures size <= 0 <==> Rounds(size, n) == 0
    decreases size
  {
    if size > 0 {
      RoundsBounds(size - n, n);
    }
  }

  /** A round that moves `min(left, n)` bytes leaves one round fewer. */
  lemma RoundsStep(left: int, n: nat, k: nat)
    requires n > 0 && 0 < left && k == Min(left, n)
    ensures Rounds(left, n) == 1 + Rounds(left - k, n)
  {
    if left < n {
      assert Rounds(left - n, n) == 0;
    }
  }

  /** Every write holds at most `bound` bytes. */
  predicate AtMost(writes: seq<seq<byte>>, bound: nat)
  {
    forall i :: 0 <= i < |writes| ==> |writes[i]| <= bound
  }

  /** Every write holds exactly `n` bytes. */
  predicate AllOfSize(writes: seq<seq<byte>>, n: nat)
  {
    forall i :: 0 <= i < |writes| ==> |writes[i]| == n
  }

  /** Every write but the last holds exactly `n` bytes. */
  predicate FullButLast(writes: seq<seq<byte>>, n: nat)
  {
    forall i :: 0 <= i < |writes| - 1 ==> |writes[i]| == n
  }

  /** How the bounds on the writes change when one more write is made. */
  lemma BoundsSnoc(writes: seq<seq<byte>>, chunk: seq<byte>, n: nat)
    ensures AtMost(writes + [chunk], n) <==> AtMost(writes, n) && |chunk| <= n
    ensures AllOfSize(writes + [chunk], n) <==> AllOfSize(writes, n) && |chunk| == n
    ensures FullButLast(writes + [chunk], n) <==> AllOfSize(writes, n)
  {
    var next := writes + [chunk];
    assert next[|writes|] == chunk;
    assert forall i :: 0 <= i < |writes| ==> next[i] == writes[i];
  }

  /** How the bounds on the writes read when one write comes before the others. */
  lemma BoundsCons(chunk: seq<byte>, rest: seq<seq<byte>>, n: nat)
    ensures AtMost([chunk] + rest, n) <==> |chunk| <= n && AtMost(rest, n)
    ensures FullButLast([chunk] + rest, n) <==> rest == [] || (|chunk| == n && FullButLast(rest, n))
  {
    var all := [chunk] + rest;
    assert all[0] == chunk;
    assert forall i :: 0 <= i < |rest| ==> all[i + 1] == rest[i];
    if AtMost(all, n) {
      assert forall i :: 0 <= i < |rest| ==> |rest[i]| == |all[i + 1]| <= n;
    }
    if FullButLast(all, n) && rest != [] {
      assert forall i :: 0 <= i < |rest| - 1 ==> |rest[i]| == |all[i + 1]| == n;
    }
  }

  /** `b"\x00" * n`, which is empty for `n <= 0`. */
  function Zeros(n: int): (r: seq<byte>)
    ensures |r| == if n <= 0 then 0 else n
    ensures forall i :: 0 <= i < |r| ==> r[i] == 0
    decreases n
  {
    if n <= 0 then [] else Zeros(n - 1) + [0]
  }
}
