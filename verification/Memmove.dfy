/** memcpy and memmove of userland/cstubs.c, on two places of one buffer. */
module Memmove {
  import opened Prelude

  type Byte = bv8

  /** All bytes copied at once, section 7.24.2.2 of ISO/IEC 9899:2011. */
  function Copied(s: seq<Byte>, to: nat, from: nat, n: nat): seq<Byte>
    requires to + n <= |s| && from + n <= |s|
  {
    s[..to] + s[from..from + n] + s[to + n..]
  }

  /** Bytes 0, 1, .. n - 1 copied one after the other. */
  function Forward(s: seq<Byte>, to: nat, from: nat, n: nat): (r: seq<Byte>)
    requires to + n <= |s| && from + n <= |s|
    ensures |r| == |s|
  {
    if n == 0 then s
    else
      var t := Forward(s, to, from, n - 1);
      t[to + n - 1 := t[from + n - 1]]
  }

  /** Bytes n - 1, .. 1, 0 copied one after the other. */
  function Backward(s: seq<Byte>, to: nat, from: nat, n: nat): (r: seq<Byte>)
    requires to + n <= |s| && from + n <= |s|
    ensures |r| == |s|
    decreases n
  {
    if n == 0 then s else Backward(s[to + n - 1 := s[from + n - 1]], to, from, n - 1)
  }

  method Memcpy(b: array<Byte>, to: nat, from: nat, n: nat) returns (dest: nat)
    requires to + n <= b.Length && from + n <= b.Length
    modifies b
    ensures b[..] == Forward(old(b[..]), to, from, n) && dest == to
    ensures forall x :: 0 <= x < b.Length && !(to <= x < to + n) ==> b[x] == old(b[x])
    ensures to <= from || to - from >= n ==> b[..] == Copied(old(b[..]), to, from, n)
  {
    ForwardWrites(b[..], to, from, n);
    if to <= from || to - from >= n {
      ForwardCopies(b[..], to, from, n);
    }
    hide Forward, Copied;
    UpFrom(b, to, from, n);
    dest := to;
  }

  /** The loop that copies upwards. */
  method UpFrom(b: array<Byte>, to: nat, from: nat, n: nat)
    requires to + n <= b.Length && from + n <= b.Length
    modifies b
    ensures b[..] == Forward(old(b[..]), to, from, n)
  {
    for i := 0 to n
      invariant b[..] == Forward(old(b[..]), to, from, i)
    {
      b[to + i] := b[from + i];
    }
  }

  /** What memmove leaves: the length goes through int on the way to the comparison and to the backward loop. */
  function Moved(s: seq<Byte>, to: nat, from: nat, n: nat): seq<Byte>
    requires to + n <= |s| && from + n <= |s|
  {
    if to > from && to - from < Signed(n, UINT_MOD) then Backward(s, to, from, Signed(n, UINT_MOD))
    else Forward(s, to, from, n)
  }

  lemma SignedIsNoMore(n: nat)
    ensures Signed(n, UINT_MOD) <= n
    ensures Signed(n, UINT_MOD) > 0 ==> Signed(n - 1, UINT_MOD) == Signed(n, UINT_MOD) - 1
    ensures Signed(n, UINT_MOD) == n <==> n < UINT_MOD / 2
  {
  }

  /** The backward loop of memmove, with its int counter. */
  method CopyDown(b: array<Byte>, to: nat, from: nat, k: nat)
    requires to + k <= b.Length && from + k <= b.Length
    modifies b
    ensures b[..] == Backward(old(b[..]), to, from, k)
  {
    var i := k - 1;
    while i >= 0
      invariant -1 <= i < k
      invariant Backward(b[..], to, from, i + 1) == Backward(old(b[..]), to, from, k)
    {
      ghost var s := b[..];
      b[to + i] := b[from + i];
      assert b[..] == s[to + i := s[from + i]];
      i := i - 1;
    }
  }

  /** memmove. On what it promises for which lengths, see MemmoveIsExact. */
  method Memmove(b: array<Byte>, to: nat, from: nat, n: nat) returns (dest: nat)
    requires to + n <= b.Length && from + n <= b.Length
    modifies b
    ensures b[..] == Moved(old(b[..]), to, from, n) && dest == to
    ensures forall x :: 0 <= x < b.Length && !(to <= x < to + n) ==> b[x] == old(b[x])
    ensures n < UINT_MOD / 2 || to <= from || to - from >= n ==> b[..] == Copied(old(b[..]), to, from, n)
  {
    OutsideStays(b[..], to, from, n);
    hide Forward, Backward;
    dest := to;
    if n < UINT_MOD / 2 || to <= from || to - from >= n {
      MovedIsCopied(b[..], to, from, n);
    }
    SignedIsNoMore(n);
    if from == to || n == 0 {
      ForwardCopies(b[..], to, from, n);
      assert Copied(b[..], to, from, n) == b[..];
      return;
    }
    if to > from && to - from < Signed(n, UINT_MOD) {
      CopyDown(b, to, from, Signed(n - 1, UINT_MOD) + 1);
      return;
    }
    if from > to && from - to < Signed(n, UINT_MOD) {
      UpFrom(b, to, from, n);
      return;
    }
    dest := Memcpy(b, to, from, n);
  }

  // ---------- when the order does not matter ----------

  /** Going up, byte j is written once, with what stands at its source by then. */
  lemma {:induction false} ForwardWrites(s: seq<Byte>, to: nat, from: nat, n: nat)
    requires to + n <= |s| && from + n <= |s|
    ensures forall j :: 0 <= j < n ==> Forward(s, to, from, n)[to + j] == Forward(s, to, from, j)[from + j]
    ensures forall x :: 0 <= x < |s| && !(to <= x < to + n) ==> Forward(s, to, from, n)[x] == s[x]
  {
    if n > 0 {
      ForwardWrites(s, to, from, n - 1);
    }
  }

  lemma ForwardCopies(s: seq<Byte>, to: nat, from: nat, n: nat)
    requires to + n <= |s| && from + n <= |s|
    requires to <= from || to - from >= n
    ensures Forward(s, to, from, n) == Copied(s, to, from, n)
  {
    hide Forward;
    ForwardWrites(s, to, from, n);
    forall x | 0 <= x < |s| ensures Forward(s, to, from, n)[x] == Copied(s, to, from, n)[x] {
      if to <= x < to + n {
        ForwardWrites(s, to, from, x - to);
        assert Forward(s, to, from, n)[to + (x - to)] == s[from + (x - to)];
      }
    }
  }

  lemma {:induction false} BackwardCopies(s: seq<Byte>, to: nat, from: nat, n: nat)
    requires to + n <= |s| && from + n <= |s| && from <= to
    ensures Backward(s, to, from, n) == Copied(s, to, from, n)
    decreases n
  {
    if n > 0 {
      var t := s[to + n - 1 := s[from + n - 1]];
      BackwardCopies(t, to, from, n - 1);
      assert Copied(t, to, from, n - 1) == Copied(s, to, from, n);
    } else {
      assert Copied(s, to, from, 0) == s;
    }
  }

  /** Going down, bytes outside the destination stay as they are. */
  lemma {:induction false} BackwardOutside(s: seq<Byte>, to: nat, from: nat, n: nat, x: nat)
    requires to + n <= |s| && from + n <= |s| && x < |s| && !(to <= x < to + n)
    ensures Backward(s, to, from, n)[x] == s[x]
    decreases n
  {
    if n > 0 {
      BackwardOutside(s[to + n - 1 := s[from + n - 1]], to, from, n - 1, x);
    }
  }

  lemma OutsideStays(s: seq<Byte>, to: nat, from: nat, n: nat)
    requires to + n <= |s| && from + n <= |s|
    ensures |Moved(s, to, from, n)| == |s|
    ensures forall x :: 0 <= x < |s| && !(to <= x < to + n) ==> Moved(s, to, from, n)[x] == s[x]
  {
    hide Forward, Backward;
    SignedIsNoMore(n);
    ForwardWrites(s, to, from, n);
    if to > from && to - from < Signed(n, UINT_MOD) {
      forall x | 0 <= x < |s| && !(to <= x < to + n) ensures Moved(s, to, from, n)[x] == s[x] {
        BackwardOutside(s, to, from, Signed(n, UINT_MOD), x);
      }
    }
  }

  lemma MovedIsCopied(s: seq<Byte>, to: nat, from: nat, n: nat)
    requires to + n <= |s| && from + n <= |s|
    requires n < UINT_MOD / 2 || to <= from || to - from >= n
    ensures Moved(s, to, from, n) == Copied(s, to, from, n)
  {
    SignedIsNoMore(n);
    if to > from && to - from < Signed(n, UINT_MOD) {
      BackwardCopies(s, to, from, n);
    } else {
      ForwardCopies(s, to, from, n);
    }
  }

  /** A buffer of zeros with one byte set. */
  function OneByte(length: nat, x: nat): (s: seq<Byte>)
    ensures |s| == length
  {
    seq(length, i => if i == x then 1 else 0)
  }

  /** A copy up of 2 GiB or more that overlaps goes wrong: it stops early, or runs over its own source. */
  lemma LongOverlapGoesWrong(length: nat, to: nat, from: nat, n: nat) returns (s: seq<Byte>)
    requires to + n <= length && from + n <= length
    requires UINT_MOD / 2 <= n && from < to && to - from < n
    ensures |s| == length && Moved(s, to, from, n) != Copied(s, to, from, n)
  {
    SignedIsNoMore(n);
    var k, d := Signed(n, UINT_MOD), to - from;
    if d < k {
      s := OneByte(length, to + k);
      BackwardCopies(s, to, from, k);
      assert Moved(s, to, from, n)[to + k] == 1;
      assert Copied(s, to, from, n)[to + k] == s[from + k] == 0;
    } else {
      s := OneByte(length, to);
      ForwardWrites(s, to, from, n);
      ForwardWrites(s, to, from, d);
      assert Forward(s, to, from, n)[to + d] == Forward(s, to, from, d)[to + 0]
             == Forward(s, to, from, 0)[from + 0] == 0;
      assert Copied(s, to, from, n)[to + d] == s[from + d] == 1;
    }
  }

  /** memmove copies as the standard says, whatever the bytes, exactly when one of three things holds. */
  lemma MemmoveIsExact(length: nat, to: nat, from: nat, n: nat)
    requires to + n <= length && from + n <= length
    ensures (forall s: seq<Byte> :: |s| == length ==> Moved(s, to, from, n) == Copied(s, to, from, n))
            <==> n < UINT_MOD / 2 || to <= from || to - from >= n
  {
    if n < UINT_MOD / 2 || to <= from || to - from >= n {
      forall s: seq<Byte> | |s| == length ensures Moved(s, to, from, n) == Copied(s, to, from, n) {
        MovedIsCopied(s, to, from, n);
      }
    } else {
      var s := LongOverlapGoesWrong(length, to, from, n);
    }
  }
}
