/** `AlignedMut` of `rex/src/utils.rs`: one view of a header in a packet, over a reference
    into the buffer or over a copy that is written back on drop. */

module AlignedView {
  import opened Bytes

  /** Accesses through `Deref` and `DerefMut` to the `n` bytes of a field. */
  datatype Access = Read(at: nat, n: nat) | Write(at: nat, bytes: seq<byte>)

  predicate Fits(a: Access, size: nat) {
    if a.Read? then a.at + a.n <= size else a.at + |a.bytes| <= size
  }

  function Applied(v: seq<byte>, a: Access): (r: seq<byte>)
    requires Fits(a, |v|)
    ensures |r| == |v|
  {
    if a.Read? then v else Put(v, a.at, a.bytes)
  }

  function Seen(v: seq<byte>, a: Access): seq<seq<byte>>
    requires Fits(a, |v|)
  {
    if a.Read? then [v[a.at..a.at + a.n]] else []
  }

  /** The value after the first `k` accesses. */
  function ValueAfter(v: seq<byte>, accesses: seq<Access>, k: nat): (r: seq<byte>)
    requires k <= |accesses| && forall i :: 0 <= i < |accesses| ==> Fits(accesses[i], |v|)
    ensures |r| == |v|
  {
    if k == 0 then v
    else
      Applied(ValueAfter(v, accesses, k - 1), accesses[k - 1])
  }

  /** What the reads among the first `k` accesses see. */
  function ReadsOf(v: seq<byte>, accesses: seq<Access>, k: nat): seq<seq<byte>>
    requires k <= |accesses| && forall i :: 0 <= i < |accesses| ==> Fits(accesses[i], |v|)
  {
    if k == 0 then []
    else
      ReadsOf(v, accesses, k - 1) + Seen(ValueAfter(v, accesses, k - 1), accesses[k - 1])
  }

  lemma SubSlice(s: seq<byte>, begin: nat, size: nat, at: nat, n: nat)
    requires begin + size <= |s| && at + n <= size
    ensures s[begin..begin + size][at..at + n] == s[begin + at..begin + at + n]
  {
    var value, l, r := s[begin..begin + size], s[begin..begin + size][at..at + n], s[begin + at..begin + at + n];
    forall i | 0 <= i < n ensures l[i] == r[i] { assert l[i] == value[at + i] == s[begin + at + i]; }
  }

  lemma PutWithin(s: seq<byte>, begin: nat, size: nat, at: nat, bytes: seq<byte>)
    requires begin + size <= |s| && at + |bytes| <= size
    ensures Put(s, begin + at, bytes)[begin..begin + size] == Put(s[begin..begin + size], at, bytes)
    ensures forall j :: 0 <= j < |s| && !(begin <= j < begin + size) ==> Put(s, begin + at, bytes)[j] == s[j]
  {
    var l, r := Put(s, begin + at, bytes)[begin..begin + size], Put(s[begin..begin + size], at, bytes);
    forall i | 0 <= i < size ensures l[i] == r[i] {
      assert l[i] == Put(s, begin + at, bytes)[begin + i];
    }
  }

  class AlignedMut {
    const slice: array<byte>  // the packet
    const begin: nat          // where the header starts
    const size: nat           // size_of::<T>()
    const aligned: bool
    var copy: seq<byte>       // the copied value, when not aligned

    ghost predicate Valid()
      reads this
    {
      begin + size <= slice.Length && (!aligned ==> |copy| == size)
    }

    /** The value behind the abstraction. */
    ghost function Value(): (v: seq<byte>)
      requires Valid()
      reads this, slice
      ensures |v| == size
    {
      if aligned then slice[..][begin..begin + size] else copy
    }

    /** Until the drop, the bytes of the slice that are not the value's stay as they are. */
    ghost predicate Elsewhere(before: seq<byte>, after: seq<byte>) {
      && |after| == |before|
      && forall j :: 0 <= j < |before| && !(aligned && begin <= j < begin + size) ==> after[j] == before[j]
    }

    /** `convert_slice_to_struct_mut` on a slice that is long enough. */
    constructor (slice: array<byte>, begin: nat, size: nat, aligned: bool)
      requires begin + size <= slice.Length
      ensures Valid() && this.slice == slice && this.begin == begin && this.size == size && this.aligned == aligned
      ensures Value() == slice[..][begin..begin + size]
    {
      this.slice, this.begin, this.size, this.aligned := slice, begin, size, aligned;
      copy := slice[..][begin..begin + size];
    }

    method Get(at: nat, n: nat) returns (bytes: seq<byte>)
      requires Valid() && at + n <= size
      ensures bytes == Value()[at..at + n]
    {
      if aligned {
        bytes := slice[begin + at..begin + at + n];
        assert bytes == slice[..][begin + at..begin + at + n];
        SubSlice(slice[..], begin, size, at, n);
      } else {
        bytes := copy[at..at + n];
      }
    }

    /** Bytes written to the slice, one after the other. */
    method Store(at: nat, bytes: seq<byte>)
      requires at + |bytes| <= slice.Length
      modifies slice
      ensures slice[..] == Put(old(slice[..]), at, bytes)
    {
      var i := 0;
      ghost var before := slice[..];
      while i < |bytes|
        invariant i <= |bytes|
        invariant forall j :: 0 <= j < slice.Length ==>
                    slice[j] == if at <= j < at + i then bytes[j - at] else before[j]
      {
        slice[at + i] := bytes[i];
        i := i + 1;
      }
    }

    method SetReference(at: nat, bytes: seq<byte>)
      requires Valid() && aligned && at + |bytes| <= size
      modifies slice
      ensures slice[..][begin..begin + size] == Put(old(slice[..][begin..begin + size]), at, bytes)
      ensures Elsewhere(old(slice[..]), slice[..])
    {
      ghost var before := slice[..];
      PutWithin(before, begin, size, at, bytes);
      Store(begin + at, bytes);
      assert slice[..] == Put(before, begin + at, bytes);
    }

    method Set(at: nat, bytes: seq<byte>)
      requires Valid() && at + |bytes| <= size
      modifies this, slice
      ensures Valid() && Value() == Put(old(Value()), at, bytes)
      ensures Elsewhere(old(slice[..]), slice[..])
    {
      if aligned {
        SetReference(at, bytes);
      } else {
        copy := Put(copy, at, bytes);
      }
    }

    method Do(a: Access) returns (seen: seq<seq<byte>>)
      requires Valid() && Fits(a, size)
      modifies this, slice
      ensures Valid() && Elsewhere(old(slice[..]), slice[..])
      ensures Value() == Applied(old(Value()), a) && seen == Seen(old(Value()), a)
    {
      match a {
        case Read(at, n) =>
          var bytes := Get(at, n);
          seen := [bytes];
        case Write(at, bytes) =>
          Set(at, bytes);
          seen := [];
      }
    }

    /** A run of accesses through the view. */
    method Perform(accesses: seq<Access>) returns (seen: seq<seq<byte>>)
      requires Valid()
      requires forall i :: 0 <= i < |accesses| ==> Fits(accesses[i], size)
      modifies this, slice
      ensures Valid() && Elsewhere(old(slice[..]), slice[..])
      ensures Value() == ValueAfter(old(Value()), accesses, |accesses|)
      ensures seen == ReadsOf(old(Value()), accesses, |accesses|)
    {
      seen := [];
      ghost var v, before := Value(), slice[..];
      var k := 0;
      while k < |accesses|
        invariant k <= |accesses| && Valid() && Elsewhere(before, slice[..])
        invariant Value() == ValueAfter(v, accesses, k)
        invariant seen == ReadsOf(v, accesses, k)
      {
        ghost var mid := slice[..];
        var more := Do(accesses[k]);
        assert Elsewhere(mid, slice[..]);
        assert ValueAfter(v, accesses, k + 1) == Applied(ValueAfter(v, accesses, k), accesses[k]);
        seen := seen + more;
        k := k + 1;
      }
    }

    /** The drop handler: a copied value goes back to the slice. */
    method Drop()
      requires Valid()
      modifies slice
      ensures aligned ==> slice[..] == old(slice[..])
      ensures !aligned ==> slice[..] == Put(old(slice[..]), begin, copy)
    {
      if !aligned {
        Store(begin, copy);
      }
    }
  }

  /** A whole life of a view of `size` bytes at `begin`, which panics when the packet is too short
      for it. What is read, and every byte of the packet afterwards, are given without reference to
      `aligned`: the two representations cannot be told apart. */
  method UseView(slice: array<byte>, begin: nat, size: nat, aligned: bool, accesses: seq<Access>)
    returns (panicked: bool, seen: seq<seq<byte>>)
    requires forall i :: 0 <= i < |accesses| ==> Fits(accesses[i], size)
    modifies slice
    ensures panicked <==> slice.Length < begin + size
    ensures panicked ==> slice[..] == old(slice[..]) && seen == []
    ensures !panicked ==> seen == ReadsOf(old(slice[begin..begin + size]), accesses, |accesses|)
    ensures !panicked ==>
              slice[..] == Put(old(slice[..]), begin, ValueAfter(old(slice[begin..begin + size]), accesses, |accesses|))
  {
    seen := [];
    if slice.Length < begin + size {
      return true, seen;
    }
    var view := new AlignedMut(slice, begin, size, aligned);
    seen := view.Perform(accesses);
    view.Drop();
    return false, seen;
  }

  predicate Writes(a: Access, b: nat) { a.Write? && a.at <= b < a.at + |a.bytes| }

  /** Each byte of the value is the one last written to it, or the original one. */
  lemma {:induction false} LastWriteWins(v: seq<byte>, accesses: seq<Access>, k: nat, m: nat, b: nat)
    requires m <= k <= |accesses| && b < |v|
    requires forall i :: 0 <= i < |accesses| ==> Fits(accesses[i], |v|)
    requires forall i :: m <= i < k ==> !Writes(accesses[i], b)
    ensures m == 0 ==> ValueAfter(v, accesses, k)[b] == v[b]
    ensures m > 0 && Writes(accesses[m - 1], b) ==>
              ValueAfter(v, accesses, k)[b] == accesses[m - 1].bytes[b - accesses[m - 1].at]
  {
    if m < k {
      LastWriteWins(v, accesses, k - 1, m, b);
      assert !Writes(accesses[k - 1], b);
    }
  }

  /** What a read returns, byte by byte: the byte last written there, or the original one; a write
      returns nothing. */
  lemma ReadSeesLastWrite(v: seq<byte>, accesses: seq<Access>, k: nat, m: nat, j: nat)
    requires m <= k < |accesses| && forall i :: 0 <= i < |accesses| ==> Fits(accesses[i], |v|)
    ensures accesses[k].Write? ==> ReadsOf(v, accesses, k + 1) == ReadsOf(v, accesses, k)
    ensures accesses[k].Read? ==>
              var all := ReadsOf(v, accesses, k + 1);
              |all| == |ReadsOf(v, accesses, k)| + 1 && all[..|all| - 1] == ReadsOf(v, accesses, k)
              && |all[|all| - 1]| == accesses[k].n
    ensures accesses[k].Read? && j < accesses[k].n
            && (forall i :: m <= i < k ==> !Writes(accesses[i], accesses[k].at + j)) ==>
              var all, b := ReadsOf(v, accesses, k + 1), accesses[k].at + j;
              && (m == 0 ==> all[|all| - 1][j] == v[b])
              && (m > 0 && Writes(accesses[m - 1], b) ==> all[|all| - 1][j] == accesses[m - 1].bytes[b - accesses[m - 1].at])
  {
    if accesses[k].Read? && j < accesses[k].n && forall i :: m <= i < k ==> !Writes(accesses[i], accesses[k].at + j) {
      LastWriteWins(v, accesses, k, m, accesses[k].at + j);
    }
  }
}
