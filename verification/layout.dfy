/**
 Sequences of writes: the offsets a run of `write` calls returns and the
 record layout they produce, derived from the single-write contract.
 */
module RecordLayout {
  import opened MmapStore

  /** Bytes occupied by records whose payload sizes are `sizes`, one length word each. */
  function Footprint(sizes: seq<uint64>): nat {
    if sizes == [] then 0 else RECORD_OVERHEAD + sizes[0] + Footprint(sizes[1..])
  }

  /** The result of a run of writes: the final store and the offset each write returned. */
  datatype Appended = Appended(store: Store, offsets: seq<uint64>)

  /** Writes records of the given payload sizes one after another, in order. */
  function WriteAll(s: Store, sizes: seq<uint64>): (a: Appended)
    requires s.writeCursor + Footprint(sizes) <= s.capacity
    ensures |a.offsets| == |sizes|
    decreases |sizes|
  {
    if sizes == [] then Appended(s, [])
    else
      var w := Write(s, sizes[0]);
      var rest := WriteAll(w.store, sizes[1..]);
      Appended(rest.store, [w.offset] + rest.offsets)
  }

  lemma {:induction false} FootprintAppend(xs: seq<uint64>, ys: seq<uint64>)
    ensures Footprint(xs + ys) == Footprint(xs) + Footprint(ys)
    decreases |xs|
  {
    if xs == [] {
      assert xs + ys == ys;
    } else {
      assert (xs + ys)[1..] == xs[1..] + ys;
      FootprintAppend(xs[1..], ys);
    }
  }

  /** Taking one more record into a prefix adds exactly that record's length word and payload. */
  lemma FootprintPrefixStep(sizes: seq<uint64>, k: nat)
    requires k < |sizes|
    ensures Footprint(sizes[..k+1]) == Footprint(sizes[..k]) + RECORD_OVERHEAD + sizes[k]
  {
    assert sizes[..k+1] == sizes[..k] + [sizes[k]];
    FootprintAppend(sizes[..k], [sizes[k]]);
    assert [sizes[k]][1..] == [];
  }

  /** A prefix of the records never occupies more than the whole run. */
  lemma FootprintPrefixBound(sizes: seq<uint64>, k: nat)
    requires k <= |sizes|
    ensures Footprint(sizes[..k]) <= Footprint(sizes)
  {
    assert sizes == sizes[..k] + sizes[k..];
    FootprintAppend(sizes[..k], sizes[k..]);
  }

  /**
   The k-th write of a run returns the starting cursor plus the bytes of the
   k records before it, the cursor ends past all of the run's records, and
   nothing but the write cursor moves.
   */
  lemma {:induction false} WriteAllOffsets(s: Store, sizes: seq<uint64>)
    requires s.writeCursor + Footprint(sizes) <= s.capacity
    ensures var a := WriteAll(s, sizes);
      && (forall k :: 0 <= k < |sizes| ==> a.offsets[k] == Cursor(s) + Footprint(sizes[..k]))
      && Cursor(a.store) == Cursor(s) + Footprint(sizes)
      && Unmoved(s, a.store)
      && (Valid(s) ==> Valid(a.store))
    decreases |sizes|
  {
    if sizes != [] {
      var a := WriteAll(s, sizes);
      var w := Write(s, sizes[0]);
      var rest := WriteAll(w.store, sizes[1..]);
      WriteAllOffsets(w.store, sizes[1..]);
      forall k | 0 <= k < |sizes|
        ensures a.offsets[k] == Cursor(s) + Footprint(sizes[..k])
      {
        if k > 0 {
          assert sizes[..k][1..] == sizes[1..][..k-1];
          assert a.offsets[k] == rest.offsets[k-1];
        }
      }
    }
  }

  /**
   Records written in a run lie back to back: each starts where the previous
   one ends, and every record lies between the starting cursor and the final
   cursor, so no two records overlap.
   */
  lemma WriteAllRecordsDisjoint(s: Store, sizes: seq<uint64>)
    requires s.writeCursor + Footprint(sizes) <= s.capacity
    ensures var a := WriteAll(s, sizes);
      && (forall k :: 0 <= k < |sizes| ==>
            Cursor(s) <= a.offsets[k] && a.offsets[k] + RECORD_OVERHEAD + sizes[k] <= Cursor(a.store))
      && (forall k :: 0 <= k < |sizes| - 1 ==> a.offsets[k+1] == a.offsets[k] + RECORD_OVERHEAD + sizes[k])
      && (forall i, j :: 0 <= i < j < |sizes| ==> a.offsets[i] + RECORD_OVERHEAD + sizes[i] <= a.offsets[j])
  {
    var a := WriteAll(s, sizes);
    WriteAllOffsets(s, sizes);
    forall k | 0 <= k < |sizes|
      ensures Cursor(s) <= a.offsets[k] && a.offsets[k] + RECORD_OVERHEAD + sizes[k] <= Cursor(a.store)
    {
      FootprintPrefixStep(sizes, k);
      FootprintPrefixBound(sizes, k + 1);
    }
    forall k | 0 <= k < |sizes| - 1
      ensures a.offsets[k+1] == a.offsets[k] + RECORD_OVERHEAD + sizes[k]
    {
      FootprintPrefixStep(sizes, k);
    }
    forall i, j | 0 <= i < j < |sizes|
      ensures a.offsets[i] + RECORD_OVERHEAD + sizes[i] <= a.offsets[j]
    {
      FootprintPrefixStep(sizes, i);
      var pre := sizes[..j];
      assert pre[..i+1] == sizes[..i+1];
      FootprintPrefixBound(pre, i + 1);
    }
  }

  /**
   On a freshly created store, the k-th write returns the header size plus the
   bytes of the k records before it, every returned offset is positive, and
   the header words keep the magic number and the capacity.
   */
  lemma FreshStoreOffsets(capacity: uint64, sizes: seq<uint64>)
    requires HEADER_SIZE + Footprint(sizes) <= capacity
    ensures var a := WriteAll(Create(capacity), sizes);
      && (forall k :: 0 <= k < |sizes| ==> a.offsets[k] == HEADER_SIZE + Footprint(sizes[..k]) > 0)
      && Cursor(a.store) == HEADER_SIZE + Footprint(sizes)
      && HeaderWord(a.store, 0) == MAGIC
      && HeaderWord(a.store, 1) == capacity
      && Valid(a.store)
  {
    WriteAllOffsets(Create(capacity), sizes);
  }

  /**
   The scenario the store's own test runs: a 64 MiB store whose cursor starts
   at 16, and a 250-byte write returning 16 and moving the cursor to 274.
   */
  lemma BasicStoreScenario()
    ensures var s := Create(64 * 1024 * 1024);
      && HeaderWord(s, 0) == 0xDEADBEEF
      && HeaderWord(s, 1) == 64 * 1024 * 1024
      && Cursor(s) == 16
      && Write(s, 250).offset == 16
      && Cursor(Write(s, 250).store) == 274
  {
  }
}
