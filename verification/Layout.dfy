/**
 The tar as the program lays it out: every entry is its header, its data and zeros up to a block
 boundary, and entries follow one another without gaps.
 */
module Layout {
  import opened Blocks

  datatype Entry = Entry(header: seq<byte>, data: seq<byte>) {
    function Size(): nat {
      |header| + |data|
    }

    function BlockedSize(): nat {
      Size() + Fill(Size())
    }

    function Image(): (image: seq<byte>)
      ensures |image| == BlockedSize()
    {
      header + data + Zeros(Fill(Size()))
    }
  }

  function TarImage(es: seq<Entry>): seq<byte> {
    if es == [] then [] else TarImage(es[..|es| - 1]) + es[|es| - 1].Image()
  }

  function Offset(es: seq<Entry>, k: nat): nat
    requires k <= |es|
  {
    if k == 0 then 0 else Offset(es, k - 1) + es[k - 1].BlockedSize()
  }

  /** The sum of the first k sizes: where entry k starts when entries of these sizes follow one another. */
  function SumTo(sizes: seq<nat>, k: nat): nat
    requires k <= |sizes|
  {
    if k == 0 then 0 else SumTo(sizes, k - 1) + sizes[k - 1]
  }

  lemma {:induction false} SumOfAppend(a: seq<nat>, b: seq<nat>, k: nat)
    requires k <= |a| + |b|
    ensures k <= |a| ==> SumTo(a + b, k) == SumTo(a, k)
    ensures k >= |a| ==> SumTo(a + b, k) == SumTo(a, |a|) + SumTo(b, k - |a|)
  {
    if k > 0 {
      SumOfAppend(a, b, k - 1);
    }
  }

  lemma {:induction false} SumMonotone(sizes: seq<nat>, j: nat, k: nat)
    requires j <= k <= |sizes|
    ensures SumTo(sizes, j) <= SumTo(sizes, k)
  {
    if j < k {
      SumMonotone(sizes, j, k - 1);
    }
  }

  /** No two entries cover the same offset. */
  lemma EntryIsUnique(sizes: seq<nat>, offset: nat, j: nat, k: nat)
    requires j < |sizes| && k < |sizes|
    requires SumTo(sizes, j) <= offset < SumTo(sizes, j + 1)
    requires SumTo(sizes, k) <= offset < SumTo(sizes, k + 1)
    ensures j == k
  {
    if j < k { SumMonotone(sizes, j + 1, k); }
    if k < j { SumMonotone(sizes, k + 1, j); }
  }

  lemma {:induction false} SumIsOffset(sizes: seq<nat>, es: seq<Entry>, k: nat)
    requires k <= |sizes| == |es| && forall i :: 0 <= i < |es| ==> sizes[i] == es[i].BlockedSize()
    ensures SumTo(sizes, k) == Offset(es, k)
  {
    if k > 0 {
      SumIsOffset(sizes, es, k - 1);
    }
  }

  lemma {:induction false} TarImageLength(es: seq<Entry>)
    ensures |TarImage(es)| == Offset(es, |es|)
  {
    if es != [] {
      hide Entry.Image, Entry.BlockedSize;
      TarImageLength(es[..|es| - 1]);
      OffsetOfPrefix(es, |es| - 1, |es| - 1);
    }
  }

  lemma {:induction false} OffsetOfPrefix(es: seq<Entry>, n: nat, k: nat)
    requires k <= n <= |es|
    ensures Offset(es[..n], k) == Offset(es, k)
  {
    if k > 0 {
      OffsetOfPrefix(es, n, k - 1);
    }
  }

  lemma {:induction false} OffsetMonotone(es: seq<Entry>, j: nat, k: nat)
    requires j <= k <= |es|
    ensures Offset(es, j) <= Offset(es, k)
  {
    if j < k {
      OffsetMonotone(es, j, k - 1);
    }
  }

  lemma BlockedIsAligned(e: Entry)
    ensures e.BlockedSize() % 512 == 0
  {
    hide Fill;
  }

  lemma {:induction false} OffsetAligned(es: seq<Entry>, k: nat)
    requires k <= |es|
    ensures Offset(es, k) % 512 == 0
  {
    if k > 0 {
      OffsetAligned(es, k - 1);
      BlockedIsAligned(es[k - 1]);
      hide Entry.BlockedSize;
      AddAligned(Offset(es, k - 1), es[k - 1].BlockedSize());
    }
  }

  /** Entry k's image stands in the tar at its offset. */
  lemma {:induction false} EntryInTar(es: seq<Entry>, k: nat)
    requires k < |es|
    ensures Offset(es, k) + |es[k].Image()| <= |TarImage(es)|
    ensures TarImage(es)[Offset(es, k)..Offset(es, k) + |es[k].Image()|] == es[k].Image()
  {
    hide Entry.Image, Entry.BlockedSize;
    var n := |es| - 1;
    var front := es[..n];
    TarImageLength(front);
    OffsetOfPrefix(es, n, n);
    var size := |es[k].Image()|;
    if k < n {
      EntryInTar(front, k);
      OffsetOfPrefix(es, n, k);
      SliceOfAppend(TarImage(front), es[n].Image(), Offset(es, k), Offset(es, k) + size);
    } else {
      SliceOfAppend(TarImage(front), es[n].Image(), Offset(es, k), Offset(es, k) + size);
    }
  }

  /** A range of a file is the same range of the tar, shifted by where the file's data starts. */
  lemma DataInTar(es: seq<Entry>, k: nat, from: nat, n: nat)
    requires k < |es| && from + n <= |es[k].data|
    ensures var at := Offset(es, k) + |es[k].header| + from;
      at + n <= |TarImage(es)| && TarImage(es)[at..at + n] == es[k].data[from..from + n]
  {
    hide *;
    EntryInTar(es, k);
    DataInStretch(TarImage(es), Offset(es, k), es[k], from, n);
  }

  lemma DataInStretch(t: seq<byte>, at: nat, e: Entry, from: nat, n: nat)
    requires at + |e.Image()| <= |t| && t[at..at + |e.Image()|] == e.Image()
    requires from + n <= |e.data|
    ensures var lo := at + |e.header| + from; lo + n <= |t| && t[lo..lo + n] == e.data[from..from + n]
  {
    hide Entry.Image, Entry.BlockedSize;
    DataInImage(e, from, n);
    SliceThrough(t, at, e.Image(), |e.header| + from, |e.header| + from + n);
  }

  lemma DataInImage(e: Entry, from: nat, n: nat)
    requires from + n <= |e.data|
    ensures |e.header| + from + n <= |e.Image()|
    ensures e.Image()[|e.header| + from..|e.header| + from + n] == e.data[from..from + n]
  {
    var lo, hi := |e.header| + from, |e.header| + from + n;
    SliceOfAppend(e.header + e.data, Zeros(Fill(e.Size())), lo, hi);
    SliceOfAppend(e.header, e.data, lo, hi);
  }

  // ---------------------------------------------------------------- reading an entry

  /**
   What one read of an entry delivers: the bytes there are from an offset on, then zeros up to a
   block boundary counted from where the read started, all cut at the size asked for.
   */
  function CopyBytes(e: Entry, size: nat, from: nat): seq<byte> {
    var bytes := e.header + e.data;
    var got := if from <= |bytes| then bytes[from..from + Min(size, |bytes| - from)] else [];
    got + Zeros(Min(Fill(|got|), size - |got|))
  }

  /** Bytes a read may ask for before its padding goes wrong: to the earlier of the two ideas of the entry's end. */
  function FaithfulSize(e: Entry, from: nat): nat
    requires from <= e.BlockedSize()
  {
    if e.Size() <= from then 0 else e.Size() - from + Min(Fill(e.Size()), Fill(e.Size() - from))
  }

  /**
   A read delivers the entry's own bytes exactly when it starts on a block boundary, or does not
   ask for more than both ideas of the padding agree on.
   */
  lemma CopyIsFaithful(e: Entry, size: nat, from: nat)
    requires from <= e.BlockedSize()
    ensures CopyBytes(e, size, from) == e.Image()[from..from + Min(size, e.BlockedSize() - from)]
      <==> from % 512 == 0 || size <= FaithfulSize(e, from) || from == e.BlockedSize()
  {
    var bytes := e.header + e.data;
    var want := e.Image()[from..from + Min(size, e.BlockedSize() - from)];
    if from <= |bytes| {
      var n := Min(size, |bytes| - from);
      assert want[..n] == bytes[from..from + n];
      assert want[n..] == Zeros(|want| - n);
      assert want == want[..n] + want[n..];
    } else {
      assert CopyBytes(e, size, from) == [];
    }
    CopyLength(e, size, from);
  }

  /** 100 bytes, read from the middle of them on: the padding reaches into the next entry. */
  lemma MiddleIsPaddedTooFar()
    ensures var e := Entry([], seq(100, _ => 1)); |CopyBytes(e, 600, 50)| == 512 > e.BlockedSize() - 50
  {
  }

  lemma CopyLength(e: Entry, size: nat, from: nat)
    requires from <= e.BlockedSize()
    ensures |CopyBytes(e, size, from)| == Min(size, e.BlockedSize() - from)
      <==> from % 512 == 0 || size <= FaithfulSize(e, from) || from == e.BlockedSize()
  {
    FillFrom(e.Size(), from);
    hide Fill;
    var n := e.Size();
    if n < from {
      assert CopyBytes(e, size, from) == [];
    } else if size <= n - from {
      assert |CopyBytes(e, size, from)| == size;
    } else {
      assert |CopyBytes(e, size, from)| == Min(size, n - from + Fill(n - from));
    }
  }

  /** Padding counted from a later start is the same padding exactly when the start is on a block boundary. */
  lemma FillFrom(n: nat, from: nat)
    requires from <= n + Fill(n)
    ensures Fill(0) == 0
    ensures from <= n ==> (Fill(n - from) == Fill(n) <==> from % 512 == 0)
    ensures n < from && from % 512 == 0 ==> from == n + Fill(n)
  {
  }

  /** A read that starts on a block boundary, or asks for no more than both ideas of the entry's end agree on. */
  predicate Faithful(e: Entry, n: nat, d: nat) {
    d % 512 == 0 || (d <= e.BlockedSize() && n <= FaithfulSize(e, d))
  }

  /** A read inside entry k delivers the tar's own bytes, up to the end of the entry, exactly if it is faithful. */
  lemma ReadInTar(es: seq<Entry>, k: nat, n: nat, d: nat)
    requires k < |es| && d < es[k].BlockedSize() && n > 0
    ensures
      var got, at, m := CopyBytes(es[k], n, d), Offset(es, k) + d, Min(n, es[k].BlockedSize() - d);
      && 0 < m && at + m <= |TarImage(es)|
      && (got == TarImage(es)[at..at + m] <==> Faithful(es[k], n, d))
  {
    hide *;
    EntryInTar(es, k);
    ReadInStretch(TarImage(es), Offset(es, k), es[k], n, d);
  }

  lemma ReadInStretch(t: seq<byte>, at: nat, e: Entry, n: nat, d: nat)
    requires at + |e.Image()| <= |t| && t[at..at + |e.Image()|] == e.Image()
    requires d < e.BlockedSize() && n > 0
    ensures var got, m := CopyBytes(e, n, d), Min(n, e.BlockedSize() - d);
      && 0 < m && at + d + m <= |t| && (got == t[at + d..at + d + m] <==> Faithful(e, n, d))
  {
    CopyIsFaithful(e, n, d);
    var len := Min(n, e.BlockedSize() - d);
    assert |e.Image()| == e.BlockedSize();
    hide Entry.Image, Entry.BlockedSize, CopyBytes, FaithfulSize;
    SliceThrough(t, at, e.Image(), d, d + len);
  }
}
